/**
 Path copy-on-write on the on-disk catalog trie (kernel/sfs_catcow.c): a put or
 remove rewrites the root-to-terminus spine as fresh node pairs, references the
 untouched siblings and retires what it superseded.
 */
module CatCow {
  import opened Base
  import opened Trie
  import opened TrieDisk
  import opened NodeStore

  const MAX_KEY := 1024
  const MAX_VAL := 16

  datatype Status = Ok | NameTooLong | Invalid | NoSpace

  // ---------------------------------------------------------------- placement

  /** Pairwise different pairs that are held and not waiting to be freed. */
  ghost predicate Loose(s: State, m: multiset<Addr>) {
    s.parked <= s.held && forall a | a in m :: m[a] == 1 && a in s.held && a !in s.parked
  }

  /** u is stored, and shares no node with what surrounds it. */
  ghost predicate Sits(s: State, u: Tree, outer: multiset<Addr>) {
    Stored(s.disk, u) && Loose(s, Nodes(u) + outer)
  }

  ghost predicate KidsSit(s: State, kids: map<Byte, Tree>, outer: multiset<Addr>) {
    (forall b | b in kids :: Stored(s.disk, kids[b])) && Loose(s, KidNodes(kids) + outer)
  }

  function Made(addr: Addr, n: Node, kids: map<Byte, Tree>): Tree {
    match n
    case LeafNode(k, v) => PLeaf(addr, k, v)
    case InnerNode(term, _) => PInner(addr, term, kids)
  }

  predicate Fits(n: Node, kids: map<Byte, Tree>) {
    match n case LeafNode(_, _) => kids == map[] case InnerNode(_, slots) => slots == Slots(kids)
  }

  lemma MadeNodes(addr: Addr, n: Node, kids: map<Byte, Tree>)
    requires Fits(n, kids)
    ensures Nodes(Made(addr, n, kids)) == multiset{addr} + KidNodes(kids)
  {
    match n
    case LeafNode(_, _) => NoKidNodes();
    case InnerNode(_, _) => NodesInner(Made(addr, n, kids));
  }

  const NoSlots: seq<Addr> := seq(256, _ => 0)

  lemma NoKidNodes()
    ensures KidNodes(map[]) == multiset{} && Slots(map[]) == NoSlots
  {
    var none: map<Byte, Tree> := map[];
    assert NodeMap(none) == map[];
    KidNodesEmpty(0);
  }

  lemma OneKid(b: Byte, u: Tree)
    ensures KidNodes(map[b := u]) == Nodes(u) && Slots(map[b := u]) == NoSlots[b := u.addr]
  {
    hide Nodes, Sum;
    var none: map<Byte, Tree> := map[];
    KidNodesPut(none, b, u);
    NoKidNodes();
    assert none[b := u] == map[b := u];
    assert KidNodes(map[b := u]) == KidNodes(map[b := u]) + multiset{} && multiset{} + Nodes(u) == Nodes(u);
  }

  lemma LooseSub(s: State, m: multiset<Addr>, outer: multiset<Addr>)
    requires Loose(s, m + outer)
    ensures Loose(s, outer) && Loose(s, m)
  {
    assert forall a | a in outer :: a in m + outer;
    assert forall a | a in m :: a in m + outer;
  }

  /** The children read the same wherever their own pairs do. */
  lemma KidsStored(d: Disk, d': Disk, kids: map<Byte, Tree>)
    requires forall b | b in kids :: Stored(d, kids[b])
    requires forall a | a in KidNodes(kids) :: SameAt(d, d', a)
    ensures forall b | b in kids :: Stored(d', kids[b])
  {
    hide Nodes, Stored, SameAt, KidNodes;
    forall b | b in kids ensures Stored(d', kids[b])
    {
      KidNodesDrop(kids, b);
      StoredFrame(d, d', kids[b]);
    }
  }

  lemma MadeSits(s: State, s': State, addr: Addr, n: Node, kids: map<Byte, Tree>, outer: multiset<Addr>)
    requires KidsSit(s, kids, outer) && Fits(n, kids) && addr > 0 && Wrote(s, s', addr, n)
    ensures Sits(s', Made(addr, n, kids), outer)
  {
    hide Nodes, KidNodes, SameAt, Get, Slots;
    MadeNodes(addr, n, kids);
    forall a | a in KidNodes(kids) ensures SameAt(s.disk, s'.disk, a) { assert a in KidNodes(kids) + outer; }
    KidsStored(s.disk, s'.disk, kids);
    assert multiset{addr} + (KidNodes(kids) + outer) == Nodes(Made(addr, n, kids)) + outer;
  }

  // ---------------------------------------------------------------- fresh subtrees

  /** The gap shrinks by at most one pair for every pair written. */
  ghost predicate Spent(s: State, s': State) { s'.room + 8192 * (|s'.written| - |s.written|) >= s.room }

  /** An allocation has failed: less than one pair is left, and no more than n pairs were written before. */
  ghost predicate RanOut(s0: State, s: State, n: int) { s.room < 8192 && |s.written| <= |s0.written| + n }

  /** Pairs were added; everything held before is still held and reads the same. */
  ghost predicate Grew(s: State, s': State) {
    && s'.parked == s.parked && s'.pinned == s.pinned && s'.base == s.base && s'.retired == s.retired
    && s'.floor == s.floor && s.emitted <= s'.emitted && s.written <= s'.written && s.held <= s'.held && Spent(s, s')
    && (forall a | a in s.held :: SameAt(s.disk, s'.disk, a))
  }

  lemma GrewMore(s0: State, s: State, s': State, addr: Addr, n: Node)
    requires Grew(s0, s) && Wrote(s, s', addr, n)
    ensures Grew(s0, s') && |s'.written| == |s.written| + (if addr == 0 then 0 else 1)
    ensures addr == 0 ==> s'.room < 8192
  {
    hide Get;
  }

  ghost function Since(now: seq<Addr>, before: seq<Addr>): multiset<Addr>
    requires before <= now
  {
    multiset(now[|before|..])
  }

  lemma SinceStep(now: seq<Addr>, before: seq<Addr>, a: Addr)
    requires before <= now
    ensures before <= now + [a] && Since(now + [a], before) == Since(now, before) + multiset{a}
  {
    assert (now + [a])[|before|..] == now[|before|..] + [a];
  }

  /** Children made of exactly the pairs written since s0. */
  ghost predicate FreshKids(s0: State, s: State, kids: map<Byte, Tree>, outer: multiset<Addr>) {
    Grew(s0, s) && KidsSit(s, kids, outer) && KidNodes(kids) == Since(s.written, s0.written)
  }

  ghost predicate Fresh(s0: State, s: State, u: Tree, outer: multiset<Addr>) {
    Grew(s0, s) && Sits(s, u, outer) && Nodes(u) == Since(s.written, s0.written)
  }

  lemma NoFreshKids(s: State, outer: multiset<Addr>)
    requires Loose(s, outer)
    ensures FreshKids(s, s, map[], outer)
  {
    NoKidNodes();
    assert KidNodes(map[]) + outer == outer;
  }

  /** A fresh leaf beside the fresh children gathered so far. */
  lemma FreshLeaf(s0: State, s: State, s': State, kids: map<Byte, Tree>, outer: multiset<Addr>,
                  b: Byte, addr: Addr, key: Key, val: Val)
    requires FreshKids(s0, s, kids, outer) && b !in kids && addr > 0 && Wrote(s, s', addr, LeafNode(key, val))
    ensures FreshKids(s0, s', kids[b := PLeaf(addr, key, val)], outer)
  {
    hide Get, KidNodes, Slots, SameAt, Since, Grew, Stored, Nodes;
    var leaf := PLeaf(addr, key, val);
    GrewMore(s0, s, s', addr, LeafNode(key, val));
    NoKidNodes();
    assert KidNodes(map[]) + (KidNodes(kids) + outer) == KidNodes(kids) + outer;
    MadeSits(s, s', addr, LeafNode(key, val), map[], KidNodes(kids) + outer);
    forall a | a in KidNodes(kids) ensures SameAt(s.disk, s'.disk, a) { assert a in KidNodes(kids) + outer; }
    KidsStored(s.disk, s'.disk, kids);
    KidNodesPut(kids, b, leaf);
    assert Nodes(leaf) == multiset{addr} by { LeafNodes(leaf); }
    assert KidNodes(kids[b := leaf]) == KidNodes(kids) + multiset{addr};
    assert KidNodes(kids[b := leaf]) + outer == Nodes(leaf) + (KidNodes(kids) + outer);
    assert Grew(s0, s) ==> s0.written <= s.written by { GrewPrefix(s0, s); }
    SinceStep(s.written, s0.written, addr);
  }

  lemma GrewPrefix(s0: State, s: State)
    ensures Grew(s0, s) ==> s0.written <= s.written
  {}

  lemma LeafNodes(u: Tree)
    requires u.PLeaf?
    ensures Nodes(u) == multiset{u.addr}
  {}

  /** An internal node above fresh children. */
  lemma FreshInner(s0: State, s: State, s': State, kids: map<Byte, Tree>, outer: multiset<Addr>, addr: Addr,
      term: Option<Val>)
    requires FreshKids(s0, s, kids, outer) && addr > 0 && Wrote(s, s', addr, InnerNode(term, Slots(kids)))
    ensures Fresh(s0, s', PInner(addr, term, kids), outer)
  {
    hide Get, KidNodes, Slots, SameAt, Since, Grew, Stored, Nodes, Loose;
    GrewMore(s0, s, s', addr, InnerNode(term, Slots(kids)));
    MadeSits(s, s', addr, InnerNode(term, Slots(kids)), kids, outer);
    MadeNodes(addr, InnerNode(term, Slots(kids)), kids);
    GrewPrefix(s0, s);
    SinceStep(s.written, s0.written, addr);
    assert KidNodes(kids) + multiset{addr} == multiset{addr} + KidNodes(kids);
  }

  /** A fresh subtree is a fresh set of one child. */
  lemma FreshOnly(s0: State, s: State, u: Tree, outer: multiset<Addr>, b: Byte)
    requires Fresh(s0, s, u, outer)
    ensures FreshKids(s0, s, map[b := u], outer) && Slots(map[b := u]) == NoSlots[b := u.addr]
  {
    hide Nodes, Stored, KidNodes, Slots, Loose, Since;
    OneKid(b, u);
  }

  // ---------------------------------------------------------------- branch a leaf

  method ForkPrefix(io: NodeStore, sv: Val, lk: Key, lv: Val, d: nat, ghost outer: multiset<Addr>)
    returns (addr: Addr, ghost u: Tree)
    requires io.Valid() && Loose(io.View(), outer) && d < |lk|
    modifies io, io.fa
    ensures io.Valid() && Grew(old(io.View()), io.View()) && |io.written| <= |old(io.written)| + 2
    ensures addr == 0 ==> RanOut(old(io.View()), io.View(), 1)
    ensures addr != 0 ==> u.addr == addr && Fresh(old(io.View()), io.View(), u, outer)
                          && Strip(u) == Inner(Some(sv), map[lk[d] := Leaf(lk, lv)])
  {
    hide NodeStore.Valid, Nodes, Loose, Get, KidNodes, Stored, Slots, FreshKids, Fresh, Grew, Wrote;
    ghost var s0 := io.View();
    ghost var none: map<Byte, Tree> := map[];
    addr, u := 0, PLeaf(0, [], []);
    NoFreshKids(s0, outer);
    GrewSelf(s0);
    var l := io.WritePair(LeafNode(lk, lv));
    ghost var s1 := io.View();
    GrewMore(s0, s0, s1, l, LeafNode(lk, lv));
    if l == 0 { return; }
    ghost var kids := none[lk[d] := PLeaf(l, lk, lv)];
    FreshLeaf(s0, s0, s1, none, outer, lk[d], l, lk, lv);
    assert kids == map[lk[d] := PLeaf(l, lk, lv)];
    OneKid(lk[d], PLeaf(l, lk, lv));
    addr := io.WritePair(InnerNode(Some(sv), NoSlots[lk[d] := l]));
    GrewMore(s0, s1, io.View(), addr, InnerNode(Some(sv), NoSlots[lk[d] := l]));
    u := PInner(addr, Some(sv), kids);
    if addr != 0 { FreshInner(s0, s1, io.View(), kids, outer, addr, Some(sv)); }
    assert Strip(u).kids == map[lk[d] := Leaf(lk, lv)];
  }

  lemma GrewSelf(s: State)
    ensures Grew(s, s)
  {}

  lemma TwoKids(b: Byte, u: Tree, c: Byte, w: Tree)
    requires b != c
    ensures KidNodes(map[b := u, c := w]) == Nodes(u) + Nodes(w)
    ensures Slots(map[b := u, c := w]) == NoSlots[b := u.addr][c := w.addr]
  {
    hide Nodes, Sum;
    OneKid(b, u);
    KidNodesPut(map[b := u], c, w);
    assert map[b := u][c := w] == map[b := u, c := w];
  }

  /** The keys part at byte d: two leaves under one node. */
  method ForkSplit(io: NodeStore, ok: Key, ov: Val, nk: Key, nv: Val, d: nat, ghost outer: multiset<Addr>)
    returns (addr: Addr, ghost u: Tree)
    requires io.Valid() && Loose(io.View(), outer) && d < |ok| && d < |nk| && ok[d] != nk[d]
    modifies io, io.fa
    ensures io.Valid() && Grew(old(io.View()), io.View()) && |io.written| <= |old(io.written)| + 3
    ensures addr == 0 ==> RanOut(old(io.View()), io.View(), 2)
    ensures addr != 0 ==> u.addr == addr && Fresh(old(io.View()), io.View(), u, outer)
                          && Strip(u) == Inner(None, map[ok[d] := Leaf(ok, ov), nk[d] := Leaf(nk, nv)])
  {
    hide NodeStore.Valid, Nodes, Loose, Get, KidNodes, Stored, Slots, FreshKids, Fresh, Grew, Wrote;
    ghost var s0 := io.View();
    ghost var none: map<Byte, Tree> := map[];
    addr, u := 0, PLeaf(0, [], []);
    NoFreshKids(s0, outer);
    GrewSelf(s0);
    var l := io.WritePair(LeafNode(ok, ov));
    ghost var s1 := io.View();
    GrewMore(s0, s0, s1, l, LeafNode(ok, ov));
    if l == 0 { return; }
    ghost var one := none[ok[d] := PLeaf(l, ok, ov)];
    FreshLeaf(s0, s0, s1, none, outer, ok[d], l, ok, ov);
    var m := io.WritePair(LeafNode(nk, nv));
    ghost var s2 := io.View();
    GrewMore(s0, s1, s2, m, LeafNode(nk, nv));
    if m == 0 { return; }
    FreshLeaf(s0, s1, s2, one, outer, nk[d], m, nk, nv);
    ghost var kids := map[ok[d] := PLeaf(l, ok, ov), nk[d] := PLeaf(m, nk, nv)];
    assert one[nk[d] := PLeaf(m, nk, nv)] == kids;
    TwoKids(ok[d], PLeaf(l, ok, ov), nk[d], PLeaf(m, nk, nv));
    addr := io.WritePair(InnerNode(None, NoSlots[ok[d] := l][nk[d] := m]));
    GrewMore(s0, s2, io.View(), addr, InnerNode(None, NoSlots[ok[d] := l][nk[d] := m]));
    u := PInner(addr, None, kids);
    if addr != 0 { FreshInner(s0, s2, io.View(), kids, outer, addr, None); }
    assert Strip(u).kids == map[ok[d] := Leaf(ok, ov), nk[d] := Leaf(nk, nv)];
  }

  /** Branches an existing leaf against a new key, then wraps the shared bytes. */
  method BranchLeaf(io: NodeStore, ok: Key, ov: Val, nk: Key, nv: Val, depth: nat, ghost outer: multiset<Addr>)
    returns (addr: Addr, ghost u: Tree)
    requires io.Valid() && Loose(io.View(), outer)
    requires depth <= |ok| && depth <= |nk| && ok[..depth] == nk[..depth] && ok != nk
    modifies io, io.fa
    ensures io.Valid() && Grew(old(io.View()), io.View())
    ensures addr == 0 ==> RanOut(old(io.View()), io.View(), |nk| - depth + 1)
    ensures addr != 0 ==> u.addr == addr && Fresh(old(io.View()), io.View(), u, outer)
                          && Strip(u) == Branch(ok, ov, nk, nv, depth)
                          && |io.written| + depth <= |old(io.written)| + |nk| + 2
  {
    hide NodeStore.Valid, Nodes, Loose, Get, KidNodes, Stored, Slots, FreshKids, Fresh, Grew, Wrote;
    ghost var s0 := io.View();
    var d := depth;
    while d < |ok| && d < |nk| && ok[d] == nk[d]
      invariant depth <= d <= |ok| && d <= |nk| && ok[..d] == nk[..d]
    {
      assert ok[..d + 1] == ok[..d] + [ok[d]] && nk[..d + 1] == nk[..d] + [nk[d]];
      d := d + 1;
    }
    ParkShorter(ok, nk, d);
    if d == |ok| {
      addr, u := ForkPrefix(io, ov, nk, nv, d, outer);
    } else if d == |nk| {
      addr, u := ForkPrefix(io, nv, ok, ov, d, outer);
    } else {
      addr, u := ForkSplit(io, ok, ov, nk, nv, d, outer);
    }
    while addr != 0 && d > depth
      invariant depth <= d <= |ok| && d <= |nk| && ok[..d] == nk[..d]
      invariant io.Valid() && Grew(s0, io.View())
      invariant addr == 0 ==> RanOut(s0, io.View(), |nk| - depth + 1)
      invariant addr != 0 ==> u.addr == addr && Fresh(s0, io.View(), u, outer) && Strip(u) == Branch(ok, ov, nk, nv, d)
                              && |io.written| + d <= |s0.written| + |nk| + 2
      decreases if addr != 0 then d + 1 else 0
    {
      d := d - 1;
      Shorten(ok, nk, d);
      addr, u := Wrap(io, nk[d], u, addr, outer, s0);
    }
  }

  lemma ParkShorter(ok: Key, nk: Key, d: nat)
    requires d <= |ok| && d <= |nk| && ok[..d] == nk[..d] && ok != nk
    ensures !(d == |ok| && d == |nk|)
  {
    assert d == |ok| ==> ok == ok[..d];
    assert d == |nk| ==> nk == nk[..d];
  }

  lemma Shorten(ok: Key, nk: Key, d: nat)
    requires d + 1 <= |ok| && d + 1 <= |nk| && ok[..d + 1] == nk[..d + 1]
    ensures ok[..d] == nk[..d] && ok[d] == nk[d]
  {
    assert ok[d] == ok[..d + 1][d] == nk[..d + 1][d] == nk[d];
    assert ok[..d] == ok[..d + 1][..d] == nk[..d + 1][..d] == nk[..d];
  }

  /** A single-child internal node above a fresh subtree. */
  method Wrap(io: NodeStore, b: Byte, ghost w: Tree, child: Addr, ghost outer: multiset<Addr>, ghost s0: State)
    returns (addr: Addr, ghost u: Tree)
    requires io.Valid() && Fresh(s0, io.View(), w, outer) && child == w.addr
    modifies io, io.fa
    ensures io.Valid() && Grew(s0, io.View()) && u.addr == addr && |io.written| <= |old(io.written)| + 1
    ensures addr == 0 ==> RanOut(old(io.View()), io.View(), 0)
    ensures addr != 0 ==> Fresh(s0, io.View(), u, outer) && Strip(u) == Inner(None, map[b := Strip(w)])
  {
    hide NodeStore.Valid, Nodes, Loose, Get, KidNodes, Stored, Slots, FreshKids, Grew, Wrote;
    ghost var s := io.View();
    FreshOnly(s0, s, w, outer, b);
    addr := io.WritePair(InnerNode(None, NoSlots[b := child]));
    GrewMore(s0, s, io.View(), addr, InnerNode(None, NoSlots[b := child]));
    u := PInner(addr, None, map[b := w]);
    if addr != 0 { FreshInner(s0, s, io.View(), map[b := w], outer, addr, None); }
    assert Strip(u).kids == map[b := Strip(w)];
  }

  // ---------------------------------------------------------------- edits

  /** Nothing outside `gone` that was held has moved, been parked or been overwritten. */
  ghost predicate Kept(s0: State, s: State, gone: multiset<Addr>) {
    && s.pinned == s0.pinned && s.base == s0.base && s.floor == s0.floor && s0.emitted <= s.emitted
    && s0.written <= s.written && s0.retired <= s.retired && s.parked <= s.held && Spent(s0, s)
    && forall a | a in s0.held && a !in gone ::
         a in s.held && (a in s.parked <==> a in s0.parked) && SameAt(s0.disk, s.disk, a)
  }

  /** Old nodes plus written pairs are the nodes that remain, the retired ones and the lost ones. */
  ghost predicate Balance(s0: State, s: State, was: multiset<Addr>, now: multiset<Addr>, lost: multiset<Addr>) {
    && s0.written <= s.written && s0.retired <= s.retired
    && was + Since(s.written, s0.written) == now + Since(s.retired, s0.retired) + lost
  }

  /** The subtree with nodes `was` has become u. */
  ghost predicate Edited(s0: State, s: State, was: multiset<Addr>, u: Tree, outer: multiset<Addr>,
      lost: multiset<Addr>) {
    Kept(s0, s, was) && Sits(s, u, outer) && Balance(s0, s, was, Nodes(u), lost)
  }

  /** The children `kids` of some node have become kids', and the node itself is about to. */
  ghost predicate Staged(s0: State, s: State, kids: map<Byte, Tree>, kids': map<Byte, Tree>, outer: multiset<Addr>,
                         lost: multiset<Addr>)
  {
    Kept(s0, s, KidNodes(kids)) && KidsSit(s, kids', outer) && Balance(s0, s, KidNodes(kids), KidNodes(kids'), lost)
  }

  /** The node itself; the virtual root of an empty catalog has no address. */
  ghost function Own(addr: Addr): multiset<Addr> { if addr == 0 then multiset{} else multiset{addr} }

  lemma GrewKept(s0: State, s: State)
    requires Grew(s0, s) && s0.parked <= s0.held
    ensures Kept(s0, s, multiset{})
  {}

  lemma KeptMore(s0: State, s: State, gone: multiset<Addr>, more: multiset<Addr>)
    requires Kept(s0, s, gone) && gone <= more
    ensures Kept(s0, s, more)
  {
    assert forall a | a in gone :: a in more;
  }

  lemma KeptWrote(s0: State, s: State, s': State, gone: multiset<Addr>, addr: Addr, n: Node)
    requires Kept(s0, s, gone) && Wrote(s, s', addr, n)
    ensures Kept(s0, s', gone)
  {
    hide Get;
  }

  lemma KeptDropped(s0: State, s: State, s': State, gone: multiset<Addr>, addr: Addr)
    requires Kept(s0, s, gone) && addr in s.held && addr !in s.parked && Dropped(s, s', addr)
    ensures Kept(s0, s', gone + multiset{addr})
  {
    hide SameAt;
  }

  lemma BalanceWrote(s0: State, s: State, s': State, was: multiset<Addr>, now: multiset<Addr>, lost: multiset<Addr>,
                     addr: Addr, n: Node)
    requires Balance(s0, s, was, now, lost) && addr > 0 && Wrote(s, s', addr, n)
    ensures Balance(s0, s', was, multiset{addr} + now, lost)
  {
    hide Get, SameAt, Since;
    SinceStep(s.written, s0.written, addr);
    assert was + (Since(s.written, s0.written) + multiset{addr})
        == (was + Since(s.written, s0.written)) + multiset{addr};
    assert (now + Since(s.retired, s0.retired) + lost) + multiset{addr}
        == multiset{addr} + now + Since(s.retired, s0.retired) + lost;
  }

  lemma BalanceDropped(s0: State, s: State, s': State, was: multiset<Addr>, now: multiset<Addr>, lost: multiset<Addr>,
      addr: Addr)
    requires Balance(s0, s, was, now, lost) && Dropped(s, s', addr)
    ensures Balance(s0, s', multiset{addr} + was, now, lost)
  {
    hide Since;
    SinceStep(s.retired, s0.retired, addr);
    assert multiset{addr} + was + Since(s.written, s0.written) == (was + Since(s.written, s0.written)) + multiset{addr};
    assert (now + Since(s.retired, s0.retired) + lost) + multiset{addr}
        == now + (Since(s.retired, s0.retired) + multiset{addr}) + lost;
  }

  lemma SitsDropped(s: State, s': State, u: Tree, outer: multiset<Addr>, addr: Addr)
    requires Sits(s, u, multiset{addr} + outer) && Dropped(s, s', addr)
    ensures Sits(s', u, outer)
  {
    hide Nodes, Stored;
    forall a | a in Nodes(u) + outer ensures (Nodes(u) + outer)[a] == 1 && a in s'.held && a !in s'.parked
    {
      assert a in Nodes(u) + (multiset{addr} + outer);
    }
    assert addr in Nodes(u) + (multiset{addr} + outer);
  }

  /** Writing the new node over its staged children completes the edit of the old one, bar its retirement. */
  lemma ReplaceWrote(s0: State, s: State, s': State, own: multiset<Addr>, kids: map<Byte, Tree>, kids': map<Byte, Tree>,
                     outer: multiset<Addr>, lost: multiset<Addr>, p: Addr, n: Node)
    requires Staged(s0, s, kids, kids', own + outer, lost) && Fits(n, kids') && p > 0 && Wrote(s, s', p, n)
    ensures Edited(s0, s', KidNodes(kids), Made(p, n, kids'), own + outer, lost)
  {
    hide Kept, Balance, Nodes, KidNodes, Stored, Loose, Wrote, Slots, Get;
    KeptWrote(s0, s, s', KidNodes(kids), p, n);
    BalanceWrote(s0, s, s', KidNodes(kids), KidNodes(kids'), lost, p, n);
    MadeSits(s, s', p, n, kids', own + outer);
    MadeNodes(p, n, kids');
  }

  lemma ReplaceDropped(s0: State, s: State, s': State, was: multiset<Addr>, u: Tree, outer: multiset<Addr>,
                       lost: multiset<Addr>, addr: Addr)
    requires Edited(s0, s, was, u, multiset{addr} + outer, lost) && Dropped(s, s', addr)
    ensures addr in s.held && addr !in s.parked && Edited(s0, s', multiset{addr} + was, u, outer, lost)
  {
    hide Kept, Balance, Nodes, Stored, Dropped;
    assert addr in Nodes(u) + (multiset{addr} + outer);
    KeptDropped(s0, s, s', was, addr);
    assert was + multiset{addr} == multiset{addr} + was;
    BalanceDropped(s0, s, s', was, Nodes(u), lost, addr);
    SitsDropped(s, s', u, outer, addr);
  }

  lemma Retirable(s: State, u: Tree, outer: multiset<Addr>, addr: Addr)
    requires Sits(s, u, multiset{addr} + outer)
    ensures addr in s.held && addr !in s.parked
  {
    hide Nodes, Stored;
    assert addr in Nodes(u) + (multiset{addr} + outer);
  }

  /** Emits the node that takes the place of the one at addr, then retires that one. */
  method Replace(io: NodeStore, addr: Addr, n: Node, ghost kids: map<Byte, Tree>, ghost kids': map<Byte, Tree>,
                 ghost outer: multiset<Addr>, ghost lost: multiset<Addr>, ghost s0: State) returns (p: Addr)
    requires io.Valid() && Fits(n, kids') && Staged(s0, io.View(), kids, kids', Own(addr) + outer, lost)
    modifies io, io.fa
    ensures io.Valid() && Kept(s0, io.View(), Own(addr) + KidNodes(kids)) && |io.written| <= |old(io.written)| + 1
    ensures p == 0 ==> RanOut(old(io.View()), io.View(), 0)
    ensures p != 0 ==> Edited(s0, io.View(), Own(addr) + KidNodes(kids), Made(p, n, kids'), outer, lost)
  {
    hide NodeStore.Valid, Nodes, Loose, Get, KidNodes, Stored, Slots, Kept, Balance, Fits, KidsSit, Made;
    ghost var s := io.View();
    p := io.WritePair(n);
    ghost var s1 := io.View();
    KeptWrote(s0, s, s1, KidNodes(kids), p, n);
    if p == 0 {
      KeptMore(s0, s1, KidNodes(kids), Own(addr) + KidNodes(kids));
      return;
    }
    ReplaceWrote(s0, s, s1, Own(addr), kids, kids', outer, lost, p, n);
    assert multiset{} + outer == outer && multiset{} + KidNodes(kids) == KidNodes(kids);
    if addr != 0 {
      hide Wrote;
      Retirable(s1, Made(p, n, kids'), outer, addr);
      io.Retire(addr);
      ReplaceDropped(s0, s1, io.View(), KidNodes(kids), Made(p, n, kids'), outer, lost, addr);
    }
  }

  // ---------------------------------------------------------------- staging a child

  ghost function KidAt(kids: map<Byte, Tree>, b: Byte): multiset<Addr> {
    if b in kids then Nodes(kids[b]) else multiset{}
  }

  lemma KidSplit(kids: map<Byte, Tree>, b: Byte)
    ensures KidNodes(kids) == KidNodes(kids - {b}) + KidAt(kids, b)
  {
    hide KidNodes, Nodes;
    if b in kids { KidNodesDrop(kids, b); } else {
      assert kids - {b} == kids;
      assert KidNodes(kids) == KidNodes(kids) + multiset{};
    }
  }

  lemma KidSwap(kids: map<Byte, Tree>, b: Byte, u: Tree)
    ensures KidNodes(kids[b := u]) == KidNodes(kids - {b}) + Nodes(u)
  {
    hide KidNodes, Nodes;
    KidNodesPut(kids - {b}, b, u);
    assert (kids - {b})[b := u] == kids[b := u];
    assert KidNodes(kids[b := u]) == KidNodes(kids[b := u]) + multiset{};
  }

  lemma BalanceFrame(s0: State, s: State, was: multiset<Addr>, now: multiset<Addr>, lost: multiset<Addr>,
      x: multiset<Addr>)
    requires Balance(s0, s, was, now, lost)
    ensures Balance(s0, s, x + was, x + now, lost)
  {
    hide Since;
    assert x + was + Since(s.written, s0.written) == x + (was + Since(s.written, s0.written));
    assert x + now + Since(s.retired, s0.retired) + lost == x + (now + Since(s.retired, s0.retired) + lost);
  }

  /** The siblings of child b are untouched by whatever happened under b. */
  lemma SiblingsStored(s0: State, s: State, kids: map<Byte, Tree>, b: Byte, outer: multiset<Addr>)
    requires KidsSit(s0, kids, outer) && Kept(s0, s, KidAt(kids, b))
    ensures forall c | c in kids - {b} :: Stored(s.disk, kids[c])
  {
    hide KidNodes, Nodes, Stored, KidAt, SameAt;
    KidSplit(kids, b);
    forall a | a in KidNodes(kids - {b}) ensures SameAt(s0.disk, s.disk, a)
    {
      assert a in KidNodes(kids) + outer;
    }
    KidsStored(s0.disk, s.disk, kids - {b});
  }

  lemma StageChild(s0: State, s: State, kids: map<Byte, Tree>, b: Byte, u: Tree, outer: multiset<Addr>,
      lost: multiset<Addr>)
    requires KidsSit(s0, kids, outer)
    requires Edited(s0, s, KidAt(kids, b), u, KidNodes(kids - {b}) + outer, lost)
    ensures Staged(s0, s, kids, kids[b := u], outer, lost)
  {
    hide KidNodes, Nodes, Stored, KidAt, Kept, Balance, Loose;
    KidSplit(kids, b);
    KidSwap(kids, b, u);
    SiblingsStored(s0, s, kids, b, outer);
    KeptMore(s0, s, KidAt(kids, b), KidNodes(kids));
    BalanceFrame(s0, s, KidAt(kids, b), Nodes(u), lost, KidNodes(kids - {b}));
    assert KidNodes(kids[b := u]) + outer == Nodes(u) + (KidNodes(kids - {b}) + outer);
  }

  lemma StageSelf(s: State, kids: map<Byte, Tree>, outer: multiset<Addr>)
    requires KidsSit(s, kids, outer)
    ensures Staged(s, s, kids, kids, outer, multiset{})
  {
    hide KidNodes, Nodes, Stored;
    assert KidNodes(kids) + multiset{} == KidNodes(kids) + multiset{} + multiset{};
  }

  lemma FreshEdited(s0: State, s: State, u: Tree, outer: multiset<Addr>)
    requires Fresh(s0, s, u, outer) && s0.parked <= s0.held
    ensures Edited(s0, s, multiset{}, u, outer, multiset{})
  {
    hide Nodes, Stored, Since, Loose;
    GrewKept(s0, s);
    assert s.retired[|s0.retired|..] == [];
    assert Since(s.retired, s0.retired) == multiset{} by { NoneSince(s.retired); }
    assert multiset{} + Nodes(u) == Nodes(u) + multiset{} + multiset{};
  }

  lemma NoneSince(x: seq<Addr>)
    ensures Since(x, x) == multiset{}
  {
    assert x[|x|..] == [];
  }

  // ---------------------------------------------------------------- the descent

  /** One ancestor of the descent: its address, decoded state and the byte taken. */
  datatype Frame = Frame(addr: Addr, byte: Byte, term: Option<Val>, slots: seq<Addr>)

  /** The subtrees met on the way down t along key. */
  ghost predicate Spine(t: Tree, key: Key, spine: seq<Tree>) {
    && 0 < |spine| <= |key| + 1 && spine[0] == t
    && forall i | 0 < i < |spine| :: ParentOf(spine[i - 1], key[i - 1], spine[i])
  }

  ghost predicate ParentOf(w: Tree, b: Byte, c: Tree) { w.PInner? && b in w.kids && c == w.kids[b] }

  ghost predicate Framed(key: Key, spine: seq<Tree>, frames: seq<Frame>) {
    && 0 < |spine| == |frames| + 1 && |frames| <= |key|
    && forall i | 0 <= i < |frames| :: FrameOf(spine[i], key[i], frames[i])
  }

  ghost predicate FrameOf(w: Tree, b: Byte, f: Frame) {
    w.PInner? && f == Frame(w.addr, b, w.term, Slots(w.kids))
  }

  /** Every node outside the subtree spine[n]. */
  ghost function Around(t: Tree, key: Key, spine: seq<Tree>, n: nat, outer: multiset<Addr>): multiset<Addr>
    requires Spine(t, key, spine) && n < |spine|
  {
    if n == 0 then outer
    else
      assert ParentOf(spine[n - 1], key[n - 1], spine[n]);
      KidNodes(spine[n - 1].kids - {key[n - 1]}) + (multiset{spine[n - 1].addr} + Around(t, key, spine, n - 1, outer))
  }

  lemma SitsInner(s: State, w: Tree, outer: multiset<Addr>)
    requires Sits(s, w, outer) && w.PInner?
    ensures KidsSit(s, w.kids, multiset{w.addr} + outer) && Nodes(w) == multiset{w.addr} + KidNodes(w.kids)
  {
    hide Nodes, KidNodes, Loose;
    NodesInner(w);
    assert KidNodes(w.kids) + (multiset{w.addr} + outer) == Nodes(w) + outer;
  }

  lemma SitsKid(s: State, w: Tree, b: Byte, outer: multiset<Addr>)
    requires Sits(s, w, outer) && w.PInner? && b in w.kids
    ensures Sits(s, w.kids[b], KidNodes(w.kids - {b}) + (multiset{w.addr} + outer))
  {
    hide Nodes, KidNodes, Loose;
    NodesInner(w);
    KidNodesDrop(w.kids, b);
    assert Nodes(w.kids[b]) + (KidNodes(w.kids - {b}) + (multiset{w.addr} + outer)) == Nodes(w) + outer;
  }

  lemma {:induction false} SpineSits(s: State, t: Tree, key: Key, spine: seq<Tree>, n: nat, outer: multiset<Addr>)
    requires Sits(s, t, outer) && Spine(t, key, spine) && n < |spine|
    ensures Sits(s, spine[n], Around(t, key, spine, n, outer))
  {
    hide Sits, Nodes, KidNodes, Slots;
    if n > 0 {
      SpineSits(s, t, key, spine, n - 1, outer);
      assert ParentOf(spine[n - 1], key[n - 1], spine[n]);
      SitsKid(s, spine[n - 1], key[n - 1], Around(t, key, spine, n - 1, outer));
    }
  }

  lemma {:induction false} SpineWf(t: Tree, key: Key, spine: seq<Tree>, n: nat)
    requires Wf(Strip(t), []) && Spine(t, key, spine) && n < |spine|
    ensures Wf(Strip(spine[n]), key[..n])
  {
    if n > 0 {
      SpineWf(t, key, spine, n - 1);
      assert ParentOf(spine[n - 1], key[n - 1], spine[n]);
      assert key[..n] == key[..n - 1] + [key[n - 1]];
      assert Strip(spine[n - 1]).kids[key[n - 1]] == Strip(spine[n]);
    }
  }

  lemma EmptySlot(d: Disk, t: Tree, b: Byte)
    requires Stored(d, t) && t.PInner?
    ensures Slots(t.kids)[b] == 0 <==> b !in t.kids
  {}

  lemma ReadsBack(d: Disk, t: Tree)
    requires Stored(d, t)
    ensures ReadNode(d, t.addr) == Some(NodeOf(t))
  {}

  /** Follows the key down to a leaf, to the end of the key or to an empty slot. */
  method Descend(io: NodeStore, root: Addr, key: Key, ghost t: Tree, ghost outer: multiset<Addr>)
    returns (frames: seq<Frame>, cur: Addr, node: Node, ghost spine: seq<Tree>)
    requires Sits(io.View(), t, outer) && t.addr == root
    ensures Spine(t, key, spine) && Framed(key, spine, frames)
    ensures cur == spine[|frames|].addr && node == NodeOf(spine[|frames|])
    ensures node.LeafNode? || |frames| == |key| || key[|frames|] !in spine[|frames|].kids
  {
    hide Nodes, Loose, Stored, Get, ReadNode, Slots, Spine;
    assert Spine(t, key, [t]) by { SpineTop(t, key); }
    frames, cur, spine := [], root, [t];
    ReadsBack(io.disk, t);
    node := ReadNode(io.disk, cur).value;
    while node.InnerNode? && |frames| < |key| && node.slots[key[|frames|]] != 0
      invariant Spine(t, key, spine) && Framed(key, spine, frames)
      invariant cur == spine[|frames|].addr && node == NodeOf(spine[|frames|])
      decreases |key| - |frames|
    {
      var b := key[|frames|];
      ghost var w := spine[|frames|];
      DescendStep(io.View(), t, key, spine, frames, outer);
      frames := frames + [Frame(cur, b, node.term, node.slots)];
      spine := spine + [w.kids[b]];
      cur := node.slots[b];
      node := ReadNode(io.disk, cur).value;
    }
    DescendStop(io.View(), t, key, spine, |frames|, outer);
  }

  lemma SpineTop(t: Tree, key: Key)
    ensures Spine(t, key, [t])
  {}

  lemma DescendStop(s: State, t: Tree, key: Key, spine: seq<Tree>, n: nat, outer: multiset<Addr>)
    requires Sits(s, t, outer) && Spine(t, key, spine) && n == |spine| - 1
    ensures spine[n].PInner? && n < |key| && Slots(spine[n].kids)[key[n]] == 0 ==> key[n] !in spine[n].kids
  {
    hide Nodes, Loose, Slots;
    SpineSits(s, t, key, spine, n, outer);
    if spine[n].PInner? && n < |key| { EmptySlot(s.disk, spine[n], key[n]); }
  }

  /** One level further down along an occupied slot. */
  lemma DescendStep(s: State, t: Tree, key: Key, spine: seq<Tree>, frames: seq<Frame>, outer: multiset<Addr>)
    requires Sits(s, t, outer) && Spine(t, key, spine) && Framed(key, spine, frames) && |frames| < |key|
    requires spine[|frames|].PInner? && Slots(spine[|frames|].kids)[key[|frames|]] != 0
    ensures var w, b := spine[|frames|], key[|frames|];
            && b in w.kids && Slots(w.kids)[b] == w.kids[b].addr && Spine(t, key, spine + [w.kids[b]])
            && Framed(key, spine + [w.kids[b]], frames + [Frame(w.addr, b, w.term, Slots(w.kids))])
            && ReadNode(s.disk, w.kids[b].addr) == Some(NodeOf(w.kids[b]))
  {
    hide Nodes, Loose, Slots;
    var n, w, b := |frames|, spine[|frames|], key[|frames|];
    SpineSits(s, t, key, spine, n, outer);
    EmptySlot(s.disk, w, b);
    Child(w, b);
    ReadsBack(s.disk, w.kids[b]);
    var further := spine + [w.kids[b]];
    forall i | 0 < i < |further| ensures ParentOf(further[i - 1], key[i - 1], further[i])
    {
      if i < |spine| { assert ParentOf(spine[i - 1], key[i - 1], spine[i]); }
    }
  }

  lemma Child(w: Tree, b: Byte)
    requires w.PInner? && b in w.kids
    ensures Slots(w.kids)[b] == w.kids[b].addr
  {}

  // ---------------------------------------------------------------- put

  function StripKids(kids: map<Byte, Tree>): map<Byte, Trie> { map b | b in kids :: Strip(kids[b]) }

  /** At an internal node (or the virtual root) where the key ends or meets an empty slot. */
  method PutInner(io: NodeStore, addr: Addr, term: Option<Val>, slots: seq<Addr>, key: Key, val: Val, d: nat,
                  ghost kids: map<Byte, Tree>, ghost outer: multiset<Addr>) returns (p: Addr, ghost u: Tree)
    requires io.Valid() && KidsSit(io.View(), kids, Own(addr) + outer) && slots == Slots(kids)
    requires d <= |key| && (d == |key| || key[d] !in kids) && Wf(Inner(term, StripKids(kids)), key[..d])
    modifies io, io.fa
    ensures io.Valid() && Kept(old(io.View()), io.View(), Own(addr) + KidNodes(kids))
    ensures |io.written| + d <= |old(io.written)| + |key| + 2
    ensures p == 0 ==> RanOut(old(io.View()), io.View(), |key| - d + 1)
    ensures p != 0 ==>
      && u.addr == p && Edited(old(io.View()), io.View(), Own(addr) + KidNodes(kids), u, outer, multiset{})
      && Strip(u) == Put(Inner(term, StripKids(kids)), d, key, val)
  {
    hide NodeStore.Valid, Nodes, Loose, Get, KidNodes, Stored, Slots, Kept, Edited, Staged, Wf;
    ghost var s0 := io.View();
    if d == |key| {
      StageSelf(s0, kids, Own(addr) + outer);
      p := Replace(io, addr, InnerNode(Some(val), slots), kids, kids, outer, multiset{}, s0);
      u := PInner(p, Some(val), kids);
    } else {
      var leaf := PutLeaf(io, key, val, key[d], kids, Own(addr) + outer);
      if leaf == 0 {
        KeptMore(s0, io.View(), multiset{}, Own(addr) + KidNodes(kids));
        return 0, PLeaf(0, [], []);
      }
      ghost var kids' := kids[key[d] := PLeaf(leaf, key, val)];
      p := Replace(io, addr, InnerNode(term, slots[key[d] := leaf]), kids, kids', outer, multiset{}, s0);
      u := PInner(p, term, kids');
      assert Strip(u).kids == StripKids(kids)[key[d] := Leaf(key, val)];
    }
  }

  /** A fresh leaf for an empty slot. */
  method PutLeaf(io: NodeStore, key: Key, val: Val, ghost b: Byte, ghost kids: map<Byte, Tree>,
      ghost outer: multiset<Addr>)
    returns (leaf: Addr)
    requires io.Valid() && KidsSit(io.View(), kids, outer) && b !in kids
    modifies io, io.fa
    ensures io.Valid() && Kept(old(io.View()), io.View(), multiset{}) && |io.written| <= |old(io.written)| + 1
    ensures leaf == 0 ==> RanOut(old(io.View()), io.View(), 0)
    ensures leaf != 0 ==> var kids' := kids[b := PLeaf(leaf, key, val)];
      Staged(old(io.View()), io.View(), kids, kids', outer, multiset{}) && Slots(kids') == Slots(kids)[b := leaf]
  {
    hide NodeStore.Valid, Nodes, Loose, Get, KidNodes, Stored, Slots, Grew, Edited, Kept, Wrote, Staged;
    ghost var s0 := io.View();
    KidsHeld(s0, kids, outer);
    leaf := io.WritePair(LeafNode(key, val));
    GrewSelf(s0);
    GrewMore(s0, s0, io.View(), leaf, LeafNode(key, val));
    GrewKept(s0, io.View());
    if leaf != 0 { LeafStaged(s0, io.View(), leaf, key, val, b, kids, outer); }
  }

  lemma KidsHeld(s: State, kids: map<Byte, Tree>, outer: multiset<Addr>)
    requires KidsSit(s, kids, outer)
    ensures s.parked <= s.held
  {}

  lemma LeafStaged(s0: State, s: State, leaf: Addr, key: Key, val: Val, b: Byte, kids: map<Byte, Tree>,
      outer: multiset<Addr>)
    requires KidsSit(s0, kids, outer) && b !in kids && leaf > 0 && Wrote(s0, s, leaf, LeafNode(key, val))
    ensures Staged(s0, s, kids, kids[b := PLeaf(leaf, key, val)], outer, multiset{})
    ensures Slots(kids[b := PLeaf(leaf, key, val)]) == Slots(kids)[b := leaf]
  {
    hide Nodes, Get, KidNodes, Stored, Slots, SameAt, Kept, Balance, Loose, Wrote, Edited, Staged;
    var u := PLeaf(leaf, key, val);
    SlotPut(kids, b, u);
    KidAlone(s0, kids, outer);
    ReplaceWrote(s0, s0, s, multiset{}, map[], map[], KidNodes(kids) + outer, multiset{}, leaf, LeafNode(key, val));
    assert multiset{} + (KidNodes(kids) + outer) == KidNodes(kids) + outer;
    assert kids - {b} == kids;
    StageChild(s0, s, kids, b, u, outer, multiset{});
  }

  lemma SlotPut(kids: map<Byte, Tree>, b: Byte, u: Tree)
    ensures Slots(kids[b := u]) == Slots(kids)[b := u.addr]
  {}

  lemma KidAlone(s: State, kids: map<Byte, Tree>, outer: multiset<Addr>)
    requires KidsSit(s, kids, outer)
    ensures Staged(s, s, map[], map[], multiset{} + (KidNodes(kids) + outer), multiset{})
        && KidNodes(map[]) == multiset{}
  {
    hide Nodes, KidNodes, Stored, Slots;
    NoKidNodes();
    assert KidNodes(map[]) + (multiset{} + (KidNodes(kids) + outer)) == KidNodes(kids) + outer;
    StageSelf(s, map[], multiset{} + (KidNodes(kids) + outer));
  }

  /** At a leaf: overwrite it or branch it. */
  method PutAtLeaf(io: NodeStore, cur: Addr, k: Key, v: Val, key: Key, val: Val, d: nat, ghost outer: multiset<Addr>)
    returns (p: Addr, ghost u: Tree)
    requires io.Valid() && Sits(io.View(), PLeaf(cur, k, v), outer)
    requires d <= |key| && key[..d] <= k
    modifies io, io.fa
    ensures io.Valid() && Kept(old(io.View()), io.View(), multiset{cur})
    ensures p == 0 ==> RanOut(old(io.View()), io.View(), |key| - d + 1)
    ensures p != 0 ==>
      && u.addr == p && Edited(old(io.View()), io.View(), multiset{cur}, u, outer, multiset{})
      && Strip(u) == Put(Leaf(k, v), d, key, val) && |io.written| + d <= |old(io.written)| + |key| + 2
  {
    hide NodeStore.Valid, Nodes, Loose, Get, KidNodes, Stored, Slots, Kept, Edited, Staged, Fresh, Grew;
    ghost var s0 := io.View();
    LeafSits(s0, cur, k, v, outer);
    if k == key {
      ghost var none: map<Byte, Tree> := map[];
      p := Replace(io, cur, LeafNode(key, val), none, none, outer, multiset{}, s0);
      u := PLeaf(p, key, val);
    } else {
      p, u := BranchLeaf(io, k, v, key, val, d, multiset{cur} + outer);
      ghost var s1 := io.View();
      GrewKept(s0, s1);
      KeptMore(s0, s1, multiset{}, multiset{cur});
      if p != 0 {
        FreshEdited(s0, s1, u, multiset{cur} + outer);
        EditedRetirable(s0, s1, multiset{}, u, outer, cur);
        io.Retire(cur);
        ReplaceDropped(s0, s1, io.View(), multiset{}, u, outer, multiset{}, cur);
        EditedKept(s0, io.View(), multiset{cur}, u, outer);
        assert multiset{cur} + multiset{} == multiset{cur};
      }
    }
  }

  lemma LeafSits(s: State, cur: Addr, k: Key, v: Val, outer: multiset<Addr>)
    requires Sits(s, PLeaf(cur, k, v), outer)
    ensures cur > 0 && s.parked <= s.held && Loose(s, multiset{cur} + outer) && KidNodes(map[]) == multiset{}
    ensures Own(cur) + multiset{} == multiset{cur}
    ensures Staged(s, s, map[], map[], Own(cur) + outer, multiset{})
  {
    hide KidNodes, Slots;
    NoKidNodes();
    assert KidNodes(map[]) + (multiset{cur} + outer) == multiset{cur} + outer;
    StageSelf(s, map[], multiset{cur} + outer);
  }

  lemma EditedRetirable(s0: State, s: State, was: multiset<Addr>, u: Tree, outer: multiset<Addr>, addr: Addr)
    requires Edited(s0, s, was, u, multiset{addr} + outer, multiset{})
    ensures addr in s.held && addr !in s.parked
  {
    hide Nodes, Stored;
    Retirable(s, u, outer, addr);
  }

  lemma EditedKept(s0: State, s: State, was: multiset<Addr>, u: Tree, outer: multiset<Addr>)
    ensures Edited(s0, s, was, u, outer, multiset{}) ==> Kept(s0, s, was)
  {}

  /** Rewrites one ancestor with its child slot repointed, and retires the old copy. */
  method Repoint(io: NodeStore, f: Frame, repl: Addr, ghost w: Tree, ghost u: Tree, ghost outer: multiset<Addr>,
                 ghost lost: multiset<Addr>, ghost s0: State) returns (p: Addr)
    requires io.Valid() && Sits(s0, w, outer) && FrameOf(w, f.byte, f) && f.byte in w.kids && u.addr == repl
    requires Edited(s0, io.View(), Nodes(w.kids[f.byte]), u, KidNodes(w.kids - {f.byte}) + (multiset{w.addr} + outer),
        lost)
    modifies io, io.fa
    ensures io.Valid() && Kept(s0, io.View(), Nodes(w)) && |io.written| <= |old(io.written)| + 1
    ensures p == 0 ==> RanOut(old(io.View()), io.View(), 0)
    ensures p != 0 ==> Edited(s0, io.View(), Nodes(w), PInner(p, w.term, w.kids[f.byte := u]), outer, lost)
  {
    hide NodeStore.Valid, Nodes, Loose, Get, KidNodes, Stored, Slots, Kept, Edited, Staged;
    SitsAddr(s0, w, outer);
    SitsInner(s0, w, outer);
    StageChild(s0, io.View(), w.kids, f.byte, u, multiset{w.addr} + outer, lost);
    SlotPut(w.kids, f.byte, u);
    p := Replace(io, f.addr, InnerNode(f.term, f.slots[f.byte := repl]), w.kids, w.kids[f.byte := u], outer, lost, s0);
  }

  lemma SitsAddr(s: State, w: Tree, outer: multiset<Addr>)
    requires Sits(s, w, outer)
    ensures w.addr > 0 && Own(w.addr) == multiset{w.addr}
  {}

  lemma {:induction false} SpineNodes(t: Tree, key: Key, spine: seq<Tree>, n: nat)
    requires Spine(t, key, spine) && n < |spine|
    ensures Nodes(spine[n]) <= Nodes(t)
  {
    hide Nodes;
    if n > 0 {
      assert ParentOf(spine[n - 1], key[n - 1], spine[n]);
      SubNodes(spine[n - 1], key[n - 1]);
      SpineNodes(t, key, spine, n - 1);
    }
  }

  /** What the unwind knows once the subtree at depth n has been replaced. */
  ghost predicate PutSoFar(s0: State, s: State, t: Tree, key: Key, val: Val, spine: seq<Tree>, n: nat, u: Tree,
                           outer: multiset<Addr>)
    requires Spine(t, key, spine) && n < |spine| && Wf(Strip(t), [])
  {
    SpineWf(t, key, spine, n);
    && Edited(s0, s, Nodes(spine[n]), u, Around(t, key, spine, n, outer), multiset{})
    && Strip(u) == Put(Strip(spine[n]), n, key, val)
    && |s.written| + n <= |s0.written| + |key| + 2
  }

  lemma PutStep(s0: State, s: State, s': State, t: Tree, key: Key, val: Val, spine: seq<Tree>, n: nat, u: Tree, p: Addr,
                outer: multiset<Addr>)
    requires Spine(t, key, spine) && 0 < n < |spine| && Wf(Strip(t), []) && spine[n - 1].PInner?
    requires PutSoFar(s0, s, t, key, val, spine, n, u, outer) && |s'.written| <= |s.written| + 1
    requires var w := spine[n - 1];
             Edited(s0, s', Nodes(w), PInner(p, w.term, w.kids[key[n - 1] := u]), Around(t, key, spine, n - 1, outer),
                 multiset{})
    ensures PutSoFar(s0, s', t, key, val, spine, n - 1,
        PInner(p, spine[n - 1].term, spine[n - 1].kids[key[n - 1] := u]), outer)
  {
    hide Edited, Nodes, KidNodes, Around, Wf;
    var w, b := spine[n - 1], key[n - 1];
    assert ParentOf(w, b, spine[n]);
    SpineWf(t, key, spine, n - 1);
    assert Strip(PInner(p, w.term, w.kids[b := u])).kids == Strip(w).kids[b := Strip(u)];
  }

  method PutUnwind(io: NodeStore, frames: seq<Frame>, repl: Addr, key: Key, ghost val: Val, ghost t: Tree,
                   ghost spine: seq<Tree>, ghost u0: Tree, ghost outer: multiset<Addr>, ghost s0: State)
    returns (p: Addr, ghost u: Tree)
    requires io.Valid() && Sits(s0, t, outer) && Wf(Strip(t), []) && Spine(t, key, spine) && Framed(key, spine, frames)
    requires repl != 0 && u0.addr == repl && PutSoFar(s0, io.View(), t, key, val, spine, |frames|, u0, outer)
    modifies io, io.fa
    ensures io.Valid() && Kept(s0, io.View(), Nodes(t))
    ensures p == 0 ==> RanOut(s0, io.View(), |key| + 1)
    ensures p != 0 ==> u.addr == p && PutSoFar(s0, io.View(), t, key, val, spine, 0, u, outer)
  {
    hide NodeStore.Valid, Nodes, Loose, Get, KidNodes, Stored, Slots, Kept, Edited, Wf, Sits;
    var n := |frames|;
    p, u := repl, u0;
    while n > 0
      invariant 0 <= n <= |frames| && p != 0 && u.addr == p && io.Valid()
      invariant PutSoFar(s0, io.View(), t, key, val, spine, n, u, outer)
    {
      n := n - 1;
      ghost var w := spine[n];
      ghost var s := io.View();
      assert FrameOf(w, key[n], frames[n]) && ParentOf(w, key[n], spine[n + 1]);
      SpineSits(s0, t, key, spine, n, outer);
      p := Repoint(io, frames[n], p, w, u, Around(t, key, spine, n, outer), multiset{}, s0);
      if p == 0 {
        SpineNodes(t, key, spine, n);
        KeptMore(s0, io.View(), Nodes(w), Nodes(t));
        return;
      }
      PutStep(s0, s, io.View(), t, key, val, spine, n + 1, u, p, outer);
      u := PInner(p, w.term, w.kids[key[n] := u]);
    }
    EditedKept(s0, io.View(), Nodes(t), u, outer);
  }

  // A catalog root: zero, or the address of a stored well-formed tree.
  ghost predicate RootAt(s: State, root: Addr, t: Option<Tree>, outer: multiset<Addr>) {
    match t
    case None => root == 0 && Loose(s, outer)
    case Some(w) => root == w.addr && Sits(s, w, outer) && Wf(Strip(w), [])
  }

  ghost function RootNodes(t: Option<Tree>): multiset<Addr> { if t.Some? then Nodes(t.value) else multiset{} }

  ghost function StripRoot(t: Option<Tree>): Option<Trie> { if t.Some? then Some(Strip(t.value)) else None }

  /** Path-copying insert: the new root holds exactly the updated trie, and every node is accounted for. */
  method CowPut(io: NodeStore, root: Addr, key: Key, val: Val, ghost t: Option<Tree>, ghost outer: multiset<Addr>)
    returns (st: Status, newRoot: Addr, ghost u: Tree)
    requires io.Valid() && RootAt(io.View(), root, t, outer)
    modifies io, io.fa
    ensures io.Valid() && Kept(old(io.View()), io.View(), RootNodes(t))
    ensures st == NameTooLong <==> |key| > MAX_KEY
    ensures st == Invalid <==> |key| <= MAX_KEY && |val| > MAX_VAL
    ensures st == NameTooLong || st == Invalid ==> io.View() == old(io.View())
    ensures st == Ok ==>
      && u.addr == newRoot && Edited(old(io.View()), io.View(), RootNodes(t), u, outer, multiset{})
      && WfRoot(StripRoot(t)) && Strip(u) == PutRoot(StripRoot(t), key, val)
      && |io.written| <= |old(io.written)| + |key| + 2
    ensures st == Ok ==> io.View().room >= old(io.View().room) - 8192 * (|key| + 2)
    ensures st == NoSpace ==> old(io.View().room) < 8192 * (|key| + 2)
  {
    hide NodeStore.Valid, Nodes, Get, KidNodes, Stored, Slots, Edited, Wf, Loose, Spine;
    newRoot, u := root, PLeaf(0, [], []);
    ghost var s0 := io.View();
    RootFacts(s0, root, t, outer);
    if |key| > MAX_KEY { st := NameTooLong; return; }
    if |val| > MAX_VAL { st := Invalid; return; }
    var p: Addr;
    if root == 0 {
      p, u := PutInner(io, 0, None, NoSlots, key, val, 0, map[], outer);
    } else {
      p, u := PutTree(io, root, key, val, t.value, outer);
    }
    if p == 0 { st := NoSpace; } else { st, newRoot := Ok, p; }
  }

  lemma RootFacts(s: State, root: Addr, t: Option<Tree>, outer: multiset<Addr>)
    requires RootAt(s, root, t, outer)
    ensures Kept(s, s, RootNodes(t)) && WfRoot(StripRoot(t)) && (root == 0 <==> t.None?)
    ensures t.None? ==>
        KidsSit(s, map[], Own(0) + outer) && Own(0) + KidNodes(map[]) == multiset{} && Slots(map[]) == NoSlots
    ensures Inner(None, StripKids(map[])) == EmptyRoot && Wf(EmptyRoot, [])
  {
    hide KidNodes;
    NoKidNodes();
    assert t.None? ==> KidNodes(map[]) + (Own(0) + outer) == outer;
  }

  method PutTree(io: NodeStore, root: Addr, key: Key, val: Val, ghost t: Tree, ghost outer: multiset<Addr>)
    returns (p: Addr, ghost u: Tree)
    requires io.Valid() && Sits(io.View(), t, outer) && t.addr == root && Wf(Strip(t), [])
    modifies io, io.fa
    ensures io.Valid() && Kept(old(io.View()), io.View(), Nodes(t))
    ensures p == 0 ==> RanOut(old(io.View()), io.View(), |key| + 1)
    ensures p != 0 ==>
      && u.addr == p && Edited(old(io.View()), io.View(), Nodes(t), u, outer, multiset{})
      && Strip(u) == Put(Strip(t), 0, key, val) && |io.written| <= |old(io.written)| + |key| + 2
  {
    hide NodeStore.Valid, Nodes, Get, KidNodes, Stored, Slots, Edited, Wf, Loose, Sits, Kept, Around;
    ghost var s0 := io.View();
    var frames, cur, node, spine := Descend(io, root, key, t, outer);
    var n := |frames|;
    ghost var w := spine[n];
    SpineSits(s0, t, key, spine, n, outer);
    SpineWf(t, key, spine, n);
    p, u := PutPoint(io, cur, node, key, val, n, w, Around(t, key, spine, n, outer));
    if p == 0 {
      SpineNodes(t, key, spine, n);
      KeptMore(s0, io.View(), Nodes(w), Nodes(t));
    } else {
      p, u := PutUnwind(io, frames, p, key, val, t, spine, u, outer, s0);
    }
    AroundTop(t, key, spine, outer);
  }

  lemma AroundTop(t: Tree, key: Key, spine: seq<Tree>, outer: multiset<Addr>)
    requires Spine(t, key, spine)
    ensures Around(t, key, spine, 0, outer) == outer
  {}

  /** The mutation point at the end of the descent. */
  method PutPoint(io: NodeStore, cur: Addr, node: Node, key: Key, val: Val, d: nat, ghost w: Tree,
      ghost outer: multiset<Addr>)
    returns (p: Addr, ghost u: Tree)
    requires io.Valid() && Sits(io.View(), w, outer) && cur == w.addr && node == NodeOf(w)
    requires d <= |key| && Wf(Strip(w), key[..d])
    requires node.LeafNode? || d == |key| || key[d] !in w.kids
    modifies io, io.fa
    ensures io.Valid() && Kept(old(io.View()), io.View(), Nodes(w))
    ensures p == 0 ==> RanOut(old(io.View()), io.View(), |key| - d + 1)
    ensures p != 0 ==>
      && u.addr == p && Edited(old(io.View()), io.View(), Nodes(w), u, outer, multiset{})
      && Strip(u) == Put(Strip(w), d, key, val) && |io.written| + d <= |old(io.written)| + |key| + 2
  {
    hide NodeStore.Valid, Get, KidNodes, Stored, Slots, Edited, Loose, Kept;
    ghost var s0 := io.View();
    match node
    case LeafNode(k, v) =>
      p, u := PutAtLeaf(io, cur, k, v, key, val, d, outer);
    case InnerNode(term, slots) =>
      SitsAddr(s0, w, outer);
      SitsInner(s0, w, outer);
      assert Strip(w) == Inner(term, StripKids(w.kids));
      p, u := PutInner(io, cur, term, slots, key, val, d, w.kids, outer);
  }
}
