/**
 Path-copying removal (kernel/sfs_catcow.c:414-586): prune emptied nodes, pull a
 lone leaf up, repoint the ancestors.
 */
module CatRemove {
  import opened Base
  import opened Trie
  import opened TrieDisk
  import opened NodeStore
  import opened CatCow

  // ---------------------------------------------------------------- emptied and lone-child nodes

  method IsEmpty(term: Option<Val>, slots: seq<Addr>) returns (r: bool)
    ensures r <==> term.None? && forall i | 0 <= i < |slots| :: slots[i] == 0
  {
    if term.Some? { return false; }
    for i := 0 to |slots|
      invariant forall j | 0 <= j < i :: slots[j] == 0
    {
      if slots[i] != 0 { return false; }
    }
    return true;
  }

  ghost predicate LoneAt(slots: seq<Addr>, i: int) {
    0 <= i < |slots| && slots[i] != 0 && forall j | 0 <= j < |slots| && j != i :: slots[j] == 0
  }

  /** The only occupied slot, or -1. */
  method LoneChild(term: Option<Val>, slots: seq<Addr>) returns (idx: int)
    ensures idx >= 0 ==> term.None? && LoneAt(slots, idx)
    ensures idx < 0 ==> term.Some? || forall i | 0 <= i < |slots| :: !LoneAt(slots, i)
  {
    idx := -1;
    if term.Some? { return; }
    for i := 0 to |slots|
      invariant idx < 0 ==> forall j | 0 <= j < i :: slots[j] == 0
      invariant idx >= 0 ==> idx < i && slots[idx] != 0 && forall j | 0 <= j < i && j != idx :: slots[j] == 0
    {
      if slots[i] != 0 {
        if idx >= 0 { return -1; }
        idx := i;
      }
    }
  }

  ghost predicate AllStored(d: Disk, kids: map<Byte, Tree>) { forall b | b in kids :: Stored(d, kids[b]) }

  lemma SlotShape(d: Disk, kids: map<Byte, Tree>)
    requires AllStored(d, kids)
    ensures (forall i | 0 <= i < 256 :: Slots(kids)[i] == 0) <==> kids == map[]
    ensures forall i | 0 <= i < 256 :: LoneAt(Slots(kids), i) <==> kids.Keys == {i}
  {
    forall b: Byte ensures Slots(kids)[b] != 0 <==> b in kids { if b in kids { assert Stored(d, kids[b]); } }
    forall i | 0 <= i < 256 ensures LoneAt(Slots(kids), i) <==> kids.Keys == {i}
    {
      if LoneAt(Slots(kids), i) { forall b: Byte ensures b in kids <==> b == i {} }
    }
  }

  /** What the two tests over the slots decide about the trie. */
  lemma RebuildShape(d: Disk, term: Option<Val>, kids: map<Byte, Tree>, i: int)
    requires AllStored(d, kids)
    ensures var r := Rebuild(term, StripKids(kids));
      && (kids == map[] && term.None? ==> r == Pruned)
      && (term.None? && kids.Keys == {i} && kids[i].PLeaf? ==> r == Replaced(Strip(kids[i])))
      && (term.None? && kids.Keys == {i} && kids[i].PInner? ==> r == Replaced(Inner(term, StripKids(kids))))
      && (term.Some? || (kids != map[] && forall j | 0 <= j < 256 :: kids.Keys != {j}) ==>
          r == Replaced(Inner(term, StripKids(kids))))
  {
    var sk := StripKids(kids);
    assert sk.Keys == kids.Keys;
    assert kids == map[] ==> sk == map[];
    assert kids != map[] ==> kids.Keys != {} && sk != map[];
    if kids.Keys == {i} {
      assert i in kids && sk[i] == Strip(kids[i]);
      forall j | j in sk ensures j == i { assert j in kids.Keys; }
    }
  }

  // ---------------------------------------------------------------- pruning

  /** The whole subtree with nodes `was` is gone; nothing was written for it. */
  ghost predicate Gone(s0: State, s: State, was: multiset<Addr>, outer: multiset<Addr>) {
    Kept(s0, s, was) && Loose(s, outer) && Balance(s0, s, was, multiset{}, multiset{}) && s.written == s0.written
  }

  lemma StageDrop(s0: State, s: State, kids: map<Byte, Tree>, b: Byte, outer: multiset<Addr>)
    requires KidsSit(s0, kids, outer) && b in kids && Gone(s0, s, Nodes(kids[b]), KidNodes(kids - {b}) + outer)
    ensures Staged(s0, s, kids, kids - {b}, outer, multiset{})
  {
    hide KidNodes, Nodes, Stored, Kept, Balance, Loose;
    KidSplit(kids, b);
    SiblingsStored(s0, s, kids, b, outer);
    KeptMore(s0, s, Nodes(kids[b]), KidNodes(kids));
    BalanceFrame(s0, s, Nodes(kids[b]), multiset{}, multiset{}, KidNodes(kids - {b}));
    assert KidNodes(kids - {b}) + multiset{} == KidNodes(kids - {b});
  }

  lemma DropLoose(s: State, s': State, outer: multiset<Addr>, addr: Addr)
    requires Loose(s, multiset{addr} + outer) && Dropped(s, s', addr)
    ensures addr in s.held && addr !in s.parked && Loose(s', outer)
  {
    assert addr in multiset{addr} + outer;
    forall a | a in outer ensures outer[a] == 1 && a in s'.held && a !in s'.parked
        { assert a in multiset{addr} + outer; }
  }

  lemma LooseHead(s: State, outer: multiset<Addr>, addr: Addr)
    requires Loose(s, multiset{addr} + outer)
    ensures addr in s.held && addr !in s.parked
  {
    assert addr in multiset{addr} + outer;
  }

  /** Retiring a node whose children are all gone. */
  lemma PruneDropped(s0: State, s: State, s': State, kids: map<Byte, Tree>, outer: multiset<Addr>, addr: Addr)
    requires Staged(s0, s, kids, map[], multiset{addr} + outer, multiset{}) && s.written == s0.written
        && Dropped(s, s', addr)
    ensures Gone(s0, s', multiset{addr} + KidNodes(kids), outer)
  {
    hide KidNodes, Stored, Kept, Balance, Loose;
    NoKidNodes();
    assert KidNodes(map[]) + (multiset{addr} + outer) == multiset{addr} + outer;
    DropLoose(s, s', outer, addr);
    KeptDropped(s0, s, s', KidNodes(kids), addr);
    BalanceDropped(s0, s, s', KidNodes(kids), multiset{}, multiset{}, addr);
    assert KidNodes(kids) + multiset{addr} == multiset{addr} + KidNodes(kids);
  }

  lemma PruneRetirable(s0: State, s: State, kids: map<Byte, Tree>, outer: multiset<Addr>, addr: Addr)
    requires Staged(s0, s, kids, map[], multiset{addr} + outer, multiset{})
    ensures addr in s.held && addr !in s.parked
  {
    hide KidNodes, Stored;
    NoKidNodes();
    assert KidNodes(map[]) + (multiset{addr} + outer) == multiset{addr} + outer;
    LooseHead(s, outer, addr);
  }

  /** Pulling a lone leaf up orphans the leaf's own pair. */
  lemma LoneStaged(s0: State, s: State, kids: map<Byte, Tree>, kids': map<Byte, Tree>, i: Byte, outer: multiset<Addr>)
    requires Staged(s0, s, kids, kids', outer, multiset{}) && kids'.Keys == {i} && kids'[i].PLeaf?
    ensures Staged(s0, s, kids, map[], outer, multiset{kids'[i].addr}) && KidNodes(kids') == multiset{kids'[i].addr}
  {
    hide KidNodes, Stored, Kept, Since, Nodes;
    var a := kids'[i].addr;
    assert kids' == map[i := kids'[i]];
    OneKid(i, kids'[i]);
    LeafNodes(kids'[i]);
    NoKidNodes();
    assert KidNodes(map[]) + outer == outer;
    LooseSub(s, KidNodes(kids'), outer);
    assert multiset{a} + Since(s.retired, s0.retired) + multiset{}
        == multiset{} + Since(s.retired, s0.retired) + multiset{a};
  }

  datatype Outcome = Missing | Dead | Swapped

  /** The relation between the outcome and the trie-level removal at one node. */
  ghost predicate Resolved(s0: State, s: State, was: multiset<Addr>, r: Removal, o: Outcome, u: Tree,
      outer: multiset<Addr>,
                           lost: multiset<Addr>)
  {
    match o
    case Missing => r == Absent && s == s0
    case Dead => r == Pruned && Gone(s0, s, was, outer)
    case Swapped => r == Replaced(Strip(u)) && Edited(s0, s, was, u, outer, lost) && |lost| <= 1 && lost <= was
  }

  /** Rebuilds a node after a terminal value or a child went away, and retires the old copy. */
  method RebuildNode(io: NodeStore, addr: Addr, term: Option<Val>, slots: seq<Addr>, ghost kids: map<Byte, Tree>,
                     ghost kids': map<Byte, Tree>, ghost outer: multiset<Addr>, ghost s0: State)
    returns (ok: bool, o: Outcome, repl: Addr, ghost u: Tree, ghost lost: multiset<Addr>)
    requires io.Valid() && addr > 0 && slots == Slots(kids') && io.written == s0.written
    requires Staged(s0, io.View(), kids, kids', multiset{addr} + outer, multiset{}) && KidNodes(kids') <= KidNodes(kids)
    modifies io, io.fa
    ensures io.Valid() && Kept(s0, io.View(), multiset{addr} + KidNodes(kids)) && |io.written| <= |old(io.written)| + 1
    ensures !ok ==> RanOut(old(io.View()), io.View(), 0)
    ensures ok ==> !o.Missing? && Resolved(s0, io.View(), multiset{addr} + KidNodes(kids),
                                           Rebuild(term, StripKids(kids')), o, u, outer, lost)
    ensures ok && o.Swapped? ==> repl == u.addr != 0
  {
    hide NodeStore.Valid, Nodes, Get, KidNodes, Stored, Slots, Edited, Loose, Kept, Balance, Rebuild, LoneAt, StripKids,
        Strip;
    repl, u, lost := 0, PLeaf(0, [], []), multiset{};
    ghost var s := io.View();
    var empty := IsEmpty(term, slots);
    SlotShape(io.disk, kids');
    if empty {
      RebuildShape(io.disk, term, kids', 0);
      PruneRetirable(s0, s, kids, outer, addr);
      io.Retire(addr);
      PruneDropped(s0, s, io.View(), kids, outer, addr);
      return true, Dead, 0, u, lost;
    }
    var lone := LoneChild(term, slots);
    RebuildShape(io.disk, term, kids', lone);
    o := Swapped;
    if lone >= 0 {
      ReadsBack(io.disk, kids'[lone]);
      Child(PInner(0, term, kids'), lone);
      var n := ReadNode(io.disk, slots[lone]).value;
      if n.LeafNode? {
        LoneStaged(s0, s, kids, kids', lone, multiset{addr} + outer);
        lost := multiset{kids'[lone].addr};
        ghost var none: map<Byte, Tree> := map[];
        repl := Replace(io, addr, n, kids, none, outer, lost, s0);
        u := Made(repl, n, none);
        ok := repl != 0;
        LoneStrip(kids'[lone], repl);
        LostOne(lost, multiset{addr}, KidNodes(kids));
        return;
      }
    }
    repl := Replace(io, addr, InnerNode(term, slots), kids, kids', outer, lost, s0);
    u := PInner(repl, term, kids');
    ok := repl != 0;
    InnerStrip(repl, term, kids');
  }

  lemma LostOne(lost: multiset<Addr>, own: multiset<Addr>, k: multiset<Addr>)
    requires lost <= k
    ensures lost <= own + k
  {}

  lemma LoneStrip(w: Tree, a: Addr)
    requires w.PLeaf?
    ensures Strip(w) == Strip(Made(a, NodeOf(w), map[]))
  {}

  lemma InnerStrip(a: Addr, term: Option<Val>, kids: map<Byte, Tree>)
    ensures Strip(PInner(a, term, kids)) == Inner(term, StripKids(kids))
  {}

  // ---------------------------------------------------------------- the mutation point

  method RemovePoint(io: NodeStore, cur: Addr, node: Node, key: Key, d: nat, ghost w: Tree, ghost outer: multiset<Addr>)
    returns (ok: bool, o: Outcome, repl: Addr, ghost u: Tree, ghost lost: multiset<Addr>)
    requires io.Valid() && Sits(io.View(), w, outer) && cur == w.addr && node == NodeOf(w) && d <= |key|
    requires node.LeafNode? || d == |key| || key[d] !in w.kids
    modifies io, io.fa
    ensures io.Valid() && Kept(old(io.View()), io.View(), Nodes(w)) && |io.written| <= |old(io.written)| + 1
    ensures !ok ==> RanOut(old(io.View()), io.View(), 0) && !Remove(Strip(w), d, key).Absent?
    ensures ok ==> Resolved(old(io.View()), io.View(), Nodes(w), Remove(Strip(w), d, key), o, u, outer, lost)
    ensures ok && o.Swapped? ==> repl == u.addr != 0
  {
    hide NodeStore.Valid, Get, KidNodes, Stored, Slots, Edited, Loose, Kept, Rebuild, Staged, Balance;
    ghost var s0 := io.View();
    ok, o, repl, u, lost := true, Missing, 0, w, multiset{};
    SitsAddr(s0, w, outer);
    KeptSelf(s0, w, outer);
    match node
    case LeafNode(k, v) =>
      if k == key {
        LeafSits(s0, cur, k, v, outer);
        PruneRetirable(s0, s0, map[], outer, cur);
        io.Retire(cur);
        PruneDropped(s0, s0, io.View(), map[], outer, cur);
        o := Dead;
      }
    case InnerNode(term, slots) =>
      InnerStrip(cur, term, w.kids);
      if d == |key| && term.Some? {
        SitsInner(s0, w, outer);
        StageSelf(s0, w.kids, multiset{cur} + outer);
        NotAbsent(w, d, key);
        ok, o, repl, u, lost := RebuildNode(io, cur, None, slots, w.kids, w.kids, outer, s0);
      }
  }

  lemma NotAbsent(w: Tree, d: nat, key: Key)
    requires d == |key| && w.PInner? && w.term.Some?
    ensures !Remove(Strip(w), d, key).Absent?
  {}

  lemma KeptSelf(s: State, w: Tree, outer: multiset<Addr>)
    requires Sits(s, w, outer)
    ensures Kept(s, s, Nodes(w))
  {
    hide Nodes, Stored;
  }

  // ---------------------------------------------------------------- unwinding

  /** What a removal below child b means for the node above it. */
  function Lift(term: Option<Val>, kids: map<Byte, Trie>, b: Byte, r: Removal): Removal {
    match r
    case Absent => Absent
    case Pruned => Rebuild(term, kids - {b})
    case Replaced(c) => Replaced(Inner(term, kids[b := c]))
  }

  lemma SlotDrop(kids: map<Byte, Tree>, b: Byte)
    ensures Slots(kids - {b}) == Slots(kids)[b := 0] && StripKids(kids - {b}) == StripKids(kids) - {b}
  {}

  lemma SwapStrip(p: Addr, w: Tree, b: Byte, u: Tree)
    requires w.PInner?
    ensures Strip(PInner(p, w.term, w.kids[b := u])) == Inner(w.term, StripKids(w.kids)[b := Strip(u)])
  {
    assert StripKids(w.kids[b := u]) == StripKids(w.kids)[b := Strip(u)];
  }

  lemma FewerKids(kids: map<Byte, Tree>, b: Byte)
    ensures KidNodes(kids - {b}) <= KidNodes(kids)
  {
    hide KidNodes;
    KidSplit(kids, b);
  }

  lemma LostBelow(lost: multiset<Addr>, w: Tree, b: Byte)
    requires w.PInner? && b in w.kids && lost <= Nodes(w.kids[b])
    ensures lost <= Nodes(w)
  {
    hide Nodes;
    SubNodes(w, b);
  }

  /** One ancestor: repoint it to the replacement, or rebuild it without the pruned child. */
  method RemoveStep(io: NodeStore, f: Frame, o0: Outcome, repl0: Addr, ghost r: Removal, ghost w: Tree, ghost u0: Tree,
                    ghost lost0: multiset<Addr>, ghost outer: multiset<Addr>, ghost s0: State)
    returns (ok: bool, o: Outcome, repl: Addr, ghost u: Tree, ghost lost: multiset<Addr>)
    requires io.Valid() && Sits(s0, w, outer) && FrameOf(w, f.byte, f) && f.byte in w.kids && !o0.Missing?
    requires Resolved(s0, io.View(), Nodes(w.kids[f.byte]), r, o0, u0,
                      KidNodes(w.kids - {f.byte}) + (multiset{w.addr} + outer), lost0)
    requires o0.Swapped? ==> repl0 == u0.addr != 0
    modifies io, io.fa
    ensures io.Valid() && Kept(s0, io.View(), Nodes(w)) && |io.written| <= |old(io.written)| + 1
    ensures !ok ==> RanOut(old(io.View()), io.View(), 0)
    ensures ok ==> !o.Missing? && Resolved(s0, io.View(), Nodes(w), Lift(w.term, StripKids(w.kids), f.byte, r), o, u,
        outer, lost)
    ensures ok && o.Swapped? ==> repl == u.addr != 0
  {
    hide NodeStore.Valid, Get, KidNodes, Nodes, Stored, Slots, Edited, Loose, Kept, Rebuild, Staged, Balance, StripKids,
        Strip;
    var b := f.byte;
    SitsAddr(s0, w, outer);
    SitsInner(s0, w, outer);
    match o0
    case Swapped =>
      repl := Repoint(io, f, repl0, w, u0, outer, lost0, s0);
      ok, o, u, lost := repl != 0, Swapped, PInner(repl, w.term, w.kids[b := u0]), lost0;
      SwapStrip(repl, w, b, u0);
      LostBelow(lost0, w, b);
    case Dead =>
      StageDrop(s0, io.View(), w.kids, b, multiset{w.addr} + outer);
      SlotDrop(w.kids, b);
      FewerKids(w.kids, b);
      ok, o, repl, u, lost := RebuildNode(io, f.addr, f.term, f.slots[b := 0], w.kids, w.kids - {b}, outer, s0);
  }

  ghost predicate RemoveSoFar(s0: State, s: State, t: Tree, key: Key, spine: seq<Tree>, n: nat, o: Outcome, u: Tree,
                              outer: multiset<Addr>, lost: multiset<Addr>)
    requires Spine(t, key, spine) && n < |spine|
  {
    && !o.Missing? && Resolved(s0, s, Nodes(spine[n]), Remove(Strip(spine[n]), n, key), o, u,
        Around(t, key, spine, n, outer), lost)
    && (o.Dead? ==> s.written == s0.written) && |s.written| + n <= |s0.written| + |key| + 1
  }

  lemma RemoveUnfold(t: Tree, key: Key, spine: seq<Tree>, n: nat)
    requires Spine(t, key, spine) && n + 1 < |spine|
    ensures ParentOf(spine[n], key[n], spine[n + 1])
    ensures Remove(Strip(spine[n]), n, key)
            == Lift(spine[n].term, StripKids(spine[n].kids), key[n], Remove(Strip(spine[n + 1]), n + 1, key))
  {
    hide Rebuild;
    assert ParentOf(spine[n], key[n], spine[n + 1]);
    InnerStrip(spine[n].addr, spine[n].term, spine[n].kids);
  }

  method RemoveUnwind(io: NodeStore, frames: seq<Frame>, o0: Outcome, repl0: Addr, key: Key, ghost t: Tree,
                      ghost spine: seq<Tree>, ghost u0: Tree, ghost lost0: multiset<Addr>, ghost outer: multiset<Addr>,
                          ghost s0: State)
    returns (ok: bool, o: Outcome, repl: Addr, ghost u: Tree, ghost lost: multiset<Addr>)
    requires io.Valid() && Sits(s0, t, outer) && Spine(t, key, spine) && Framed(key, spine, frames)
    requires RemoveSoFar(s0, io.View(), t, key, spine, |frames|, o0, u0, outer, lost0)
    requires o0.Swapped? ==> repl0 == u0.addr != 0
    modifies io, io.fa
    ensures io.Valid() && Kept(s0, io.View(), Nodes(t))
    ensures !ok ==> RanOut(s0, io.View(), |key|)
    ensures ok ==> RemoveSoFar(s0, io.View(), t, key, spine, 0, o, u, outer, lost)
    ensures ok && o.Swapped? ==> repl == u.addr != 0
  {
    hide NodeStore.Valid, Nodes, Loose, Get, KidNodes, Stored, Slots, Kept, Sits, Lift, Remove, Strip, StripKids,
        Edited, Balance;
    var n := |frames|;
    ok, o, repl, u, lost := true, o0, repl0, u0, lost0;
    while n > 0
      invariant 0 <= n <= |frames| && io.Valid() && ok
      invariant RemoveSoFar(s0, io.View(), t, key, spine, n, o, u, outer, lost)
      invariant o.Swapped? ==> repl == u.addr != 0
    {
      n := n - 1;
      ghost var w := spine[n];
      RemoveUnfold(t, key, spine, n);
      assert FrameOf(w, key[n], frames[n]);
      SpineSits(s0, t, key, spine, n, outer);
      ok, o, repl, u, lost := RemoveStep(io, frames[n], o, repl, Remove(Strip(spine[n + 1]), n + 1, key), w, u, lost,
                                         Around(t, key, spine, n, outer), s0);
      if !ok {
        SpineNodes(t, key, spine, n);
        KeptMore(s0, io.View(), Nodes(w), Nodes(t));
        return;
      }
    }
    ResolvedKept(s0, io.View(), Nodes(t), Remove(Strip(t), 0, key), o, u, Around(t, key, spine, 0, outer), lost);
  }

  lemma ResolvedKept(s0: State, s: State, was: multiset<Addr>, r: Removal, o: Outcome, u: Tree, outer: multiset<Addr>,
                     lost: multiset<Addr>)
    requires Resolved(s0, s, was, r, o, u, outer, lost) && !o.Missing?
    ensures Kept(s0, s, was)
  {
    hide Kept, Sits, Balance, Loose;
  }

  // ---------------------------------------------------------------- the whole operation

  lemma FreshRoot(s0: State, s: State, s': State, was: multiset<Addr>, outer: multiset<Addr>, p: Addr)
    requires Gone(s0, s, was, outer) && p > 0 && Wrote(s, s', p, InnerNode(None, NoSlots))
    ensures Edited(s0, s', was, PInner(p, None, map[]), outer, multiset{})
  {
    hide KidNodes, Stored, Kept, Balance, Loose, Nodes, Wrote, Slots;
    NoKidNodes();
    assert KidNodes(map[]) + outer == outer;
    MadeSits(s, s', p, InnerNode(None, NoSlots), map[], outer);
    MadeNodes(p, InnerNode(None, NoSlots), map[]);
    KeptWrote(s0, s, s', was, p, InnerNode(None, NoSlots));
    BalanceWrote(s0, s, s', was, multiset{}, multiset{}, p, InnerNode(None, NoSlots));
  }

  /** A root pruned to nothing becomes a fresh empty node. */
  method FinishRoot(io: NodeStore, o: Outcome, repl0: Addr, ghost t: Tree, ghost key: Key, ghost u0: Tree,
                    ghost lost0: multiset<Addr>, ghost outer: multiset<Addr>, ghost s0: State)
    returns (repl: Addr, ghost u: Tree, ghost lost: multiset<Addr>)
    requires io.Valid() && !o.Missing? && Resolved(s0, io.View(), Nodes(t), Remove(Strip(t), 0, key), o, u0, outer,
        lost0)
    requires o.Swapped? ==> repl0 == u0.addr != 0
    modifies io, io.fa
    ensures io.Valid() && Kept(s0, io.View(), Nodes(t))
    ensures |io.written| <= |old(io.written)| + (if o.Dead? then 1 else 0)
    ensures repl == 0 ==> o.Dead? && RanOut(old(io.View()), io.View(), 0)
    ensures repl != 0 ==>
      && u.addr == repl && Edited(s0, io.View(), Nodes(t), u, outer, lost) && |lost| <= 1 && lost <= Nodes(t)
      && Some(Strip(u)) == RemoveRoot(Some(Strip(t)), key) && !Remove(Strip(t), 0, key).Absent?
  {
    hide NodeStore.Valid, Nodes, Loose, Get, KidNodes, Stored, Slots, Kept, Sits, Remove, Edited, Balance;
    ghost var s := io.View();
    repl, u, lost := repl0, u0, lost0;
    ResolvedKept(s0, s, Nodes(t), Remove(Strip(t), 0, key), o, u0, outer, lost0);
    if o.Dead? {
      repl := io.WritePair(InnerNode(None, NoSlots));
      u, lost := PInner(repl, None, map[]), multiset{};
      KeptWrote(s0, s, io.View(), Nodes(t), repl, InnerNode(None, NoSlots));
      assert Strip(u).kids == map[];
      if repl != 0 { FreshRoot(s0, s, io.View(), Nodes(t), outer, repl); }
    }
  }

  method RemoveTree(io: NodeStore, root: Addr, key: Key, ghost t: Tree, ghost outer: multiset<Addr>)
    returns (found: bool, repl: Addr, ghost u: Tree, ghost lost: multiset<Addr>)
    requires io.Valid() && Sits(io.View(), t, outer) && t.addr == root
    modifies io, io.fa
    ensures io.Valid() && Kept(old(io.View()), io.View(), Nodes(t))
    ensures !found ==> io.View() == old(io.View()) && Remove(Strip(t), 0, key).Absent?
    ensures found ==> !Remove(Strip(t), 0, key).Absent?
    ensures found && repl == 0 ==> RanOut(old(io.View()), io.View(), |key|)
    ensures found && repl != 0 ==>
      && u.addr == repl && Edited(old(io.View()), io.View(), Nodes(t), u, outer, lost) && |lost| <= 1
          && lost <= Nodes(t)
      && Some(Strip(u)) == RemoveRoot(Some(Strip(t)), key) && !Remove(Strip(t), 0, key).Absent?
      && |io.written| <= |old(io.written)| + |key| + 1
  {
    hide NodeStore.Valid, Nodes, Get, KidNodes, Stored, Slots, Edited, Loose, Sits, Kept, Remove, Strip, Balance;
    ghost var s0 := io.View();
    var frames, cur, node, spine := Descend(io, root, key, t, outer);
    ghost var n := |frames|;
    SpineSits(s0, t, key, spine, n, outer);
    SpineNodes(t, key, spine, n);
    var ok, o;
    ok, o, repl, u, lost := RemovePoint(io, cur, node, key, |frames|, spine[n], Around(t, key, spine, n, outer));
    KeptMore(s0, io.View(), Nodes(spine[n]), Nodes(t));
    AbsentAbove(t, key, spine, n);
    if !ok { return true, 0, u, lost; }
    if o.Missing? {
      return false, root, u, lost;
    }
    found := true;
    ok, o, repl, u, lost := RemoveUnwind(io, frames, o, repl, key, t, spine, u, lost, outer, s0);
    if !ok { repl := 0; return; }
    repl, u, lost := FinishRoot(io, o, repl, t, key, u, lost, outer, s0);
  }

  lemma {:induction false} AbsentAbove(t: Tree, key: Key, spine: seq<Tree>, n: nat)
    requires Spine(t, key, spine) && n < |spine|
    ensures Remove(Strip(t), 0, key).Absent? <==> Remove(Strip(spine[n]), n, key).Absent?
  {
    hide Remove, Strip, StripKids;
    if n > 0 {
      RemoveUnfold(t, key, spine, n - 1);
      AbsentAbove(t, key, spine, n - 1);
    }
  }

  /** Path-copying removal: the new root holds exactly the reduced trie; at most one leaf pair is orphaned. */
  method CowRemove(io: NodeStore, root: Addr, key: Key, ghost t: Option<Tree>, ghost outer: multiset<Addr>)
    returns (st: Status, newRoot: Addr, removed: bool, ghost u: Option<Tree>, ghost lost: multiset<Addr>)
    requires io.Valid() && RootAt(io.View(), root, t, outer)
    modifies io, io.fa
    ensures io.Valid() && Kept(old(io.View()), io.View(), RootNodes(t)) && !st.Invalid?
    ensures st == NameTooLong <==> |key| > MAX_KEY
    ensures st == NameTooLong ==> io.View() == old(io.View())
    ensures st == Ok && !removed ==>
        io.View() == old(io.View()) && newRoot == root && u == t && LookupRoot(StripRoot(t), key).None?
    ensures st == Ok && removed ==>
      && LookupRoot(StripRoot(t), key).Some? && u.Some? && u.value.addr == newRoot
      && Edited(old(io.View()), io.View(), RootNodes(t), u.value, outer, lost) && |lost| <= 1 && lost <= RootNodes(t)
      && |io.written| <= |old(io.written)| + |key| + 1
    ensures st == Ok ==> StripRoot(u) == RemoveRoot(StripRoot(t), key)
    ensures st != Ok ==> newRoot == root && !removed
    ensures st == Ok ==> io.View().room >= old(io.View().room) - 8192 * (|key| + 1)
    ensures st == NoSpace ==> old(io.View().room) < 8192 * (|key| + 1) && LookupRoot(StripRoot(t), key).Some?
  {
    hide NodeStore.Valid, Nodes, Get, KidNodes, Stored, Slots, Edited, Wf, Loose, Spine, Remove, Lookup;
    st, newRoot, removed, u, lost := Ok, root, false, t, multiset{};
    RootFacts(io.View(), root, t, outer);
    if |key| > MAX_KEY { st := NameTooLong; return; }
    if root == 0 { return; }
    AbsentMeans(Strip(t.value), key);
    var found, repl, w, l := RemoveTree(io, root, key, t.value, outer);
    if !found { return; }
    if repl == 0 { st := NoSpace; return; }
    newRoot, removed, u, lost := repl, true, Some(w), l;
  }

  lemma AbsentMeans(t: Trie, key: Key)
    requires Wf(t, [])
    ensures Remove(t, 0, key).Absent? <==> Lookup(t, key, 0).None?
  {
    RemoveLookup(t, 0, key, key);
  }
}
