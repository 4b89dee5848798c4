/**
 Writing a built tree to the device, children first (kernel/sfs_catalog.c:276-316),
 and the two writers compared: the builder and the copy-on-write editor leave the
 same tree.
 */
module Layout {
  import opened Base
  import opened Trie
  import opened TrieDisk
  import opened NodeStore
  import opened CatCow
  import B = Builder

  lemma SinceMore(a: seq<Addr>, b: seq<Addr>, c: seq<Addr>)
    requires a <= b <= c
    ensures Since(c, a) == Since(b, a) + Since(c, b)
  {
    assert c[|a|..] == b[|a|..] + c[|b|..];
  }

  lemma GrewTwice(s0: State, s1: State, s2: State)
    requires Grew(s0, s1) && Grew(s1, s2)
    ensures Grew(s0, s2)
  {
    hide Get;
  }

  /** One more fresh subtree beside the fresh children gathered so far. */
  lemma FreshKid(s0: State, s1: State, s2: State, kids: map<Byte, Tree>, outer: multiset<Addr>, b: Byte, u: Tree)
    requires FreshKids(s0, s1, kids, outer) && b !in kids && Fresh(s1, s2, u, KidNodes(kids) + outer)
    ensures FreshKids(s0, s2, kids[b := u], outer)
  {
    hide KidNodes, Since, Stored, Nodes, SameAt;
    GrewTwice(s0, s1, s2);
    SinceMore(s0.written, s1.written, s2.written);
    forall a | a in KidNodes(kids) ensures SameAt(s1.disk, s2.disk, a) { assert a in KidNodes(kids) + outer; }
    KidsStored(s1.disk, s2.disk, kids);
    KidNodesPut(kids, b, u);
    assert KidNodes(kids[b := u]) == KidNodes(kids) + Nodes(u);
    assert KidNodes(kids[b := u]) + outer == Nodes(u) + (KidNodes(kids) + outer);
  }

  lemma FreshLeafTree(s0: State, s: State, outer: multiset<Addr>, addr: Addr, key: Key, val: Val)
    requires Loose(s0, outer) && addr > 0 && Wrote(s0, s, addr, LeafNode(key, val))
    ensures Fresh(s0, s, PLeaf(addr, key, val), outer)
  {
    hide Get, SameAt;
    NoKidNodes();
    assert KidNodes(map[]) + outer == outer;
    MadeSits(s0, s, addr, LeafNode(key, val), map[], outer);
    SinceStep(s0.written, s0.written, addr);
  }

  /** What has been laid out after the children below i. */
  ghost predicate LaidBelow(s: B.Shape, kids: map<Byte, Tree>, slots: seq<Addr>, i: nat)
    requires s.InnerAt?
  {
    && slots == Slots(kids)
    && (forall b: Byte :: b in kids <==> b in s.kids && b < i)
    && (forall b: Byte | b in kids :: Strip(kids[b]) == B.Strip(s.kids[b]))
  }

  lemma LaidNext(s: B.Shape, kids: map<Byte, Tree>, slots: seq<Addr>, b: Byte, u: Tree)
    requires s.InnerAt? && LaidBelow(s, kids, slots, b) && b in s.kids && Strip(u) == B.Strip(s.kids[b])
    ensures LaidBelow(s, kids[b := u], slots[b := u.addr], b + 1)
  {
    assert slots[b := u.addr] == Slots(kids[b := u]);
  }

  lemma LaidAll(s: B.Shape, kids: map<Byte, Tree>, slots: seq<Addr>, addr: Addr)
    requires s.InnerAt? && LaidBelow(s, kids, slots, 256)
    ensures Strip(PInner(addr, s.term, kids)) == B.Strip(s)
  {
    var t := Strip(PInner(addr, s.term, kids));
    forall b: Byte ensures b in t.kids <==> b in B.Strip(s).kids {}
    assert t.kids == B.Strip(s).kids;
  }

  /** The number of nodes of a trie, one pair each. */
  ghost function Size(t: Trie): nat
    decreases t, 300
  {
    if t.Leaf? then 1 else 1 + SizeBelow(t, 256)
  }

  ghost function SizeBelow(t: Trie, n: nat): nat
    requires t.Inner? && n <= 256
    decreases t, n
  {
    if n == 0 then 0 else SizeBelow(t, n - 1) + (if n - 1 in t.kids then Size(t.kids[n - 1]) else 0)
  }

  lemma {:induction false} SizeMono(t: Trie, i: nat, n: nat)
    requires t.Inner? && i <= n <= 256
    ensures SizeBelow(t, i) <= SizeBelow(t, n)
    decreases n
  {
    hide Size;
    if i < n { SizeMono(t, i, n - 1); }
  }

  lemma KidSize(s: B.Shape, i: Byte)
    requires s.InnerAt?
    ensures i !in s.kids ==> SizeBelow(B.Strip(s), i + 1) == SizeBelow(B.Strip(s), i)
    ensures i in s.kids ==> SizeBelow(B.Strip(s), i + 1) == SizeBelow(B.Strip(s), i) + Size(B.Strip(s.kids[i]))
    ensures SizeBelow(B.Strip(s), i + 1) < Size(B.Strip(s))
  {
    SizeMono(B.Strip(s), i + 1, 256);
  }

  /** Lays a subtree out bottom-up: on success the device holds exactly the built trie, on pairs nobody held before. */
  method LayOut(io: NodeStore, n: B.Node, ghost s: B.Shape, ghost outer: multiset<Addr>) returns (addr: Addr,
      ghost u: Tree)
    requires io.Valid() && Loose(io.View(), outer) && s.n == n && B.Rep(s)
    modifies io, io.fa
    ensures io.Valid() && Grew(old(io.View()), io.View())
    ensures addr != 0 ==> u.addr == addr && Fresh(old(io.View()), io.View(), u, outer) && Strip(u) == B.Strip(s)
    ensures addr != 0 ==> |io.written| == |old(io.written)| + Size(B.Strip(s))
    ensures addr == 0 ==> RanOut(old(io.View()), io.View(), Size(B.Strip(s)) - 1)
    decreases s
  {
    hide Size, SizeBelow, NodeStore.Valid, Nodes, Loose, Get, KidNodes, Stored, Slots, FreshKids, Fresh, Grew, Wrote,
        LaidBelow, B.Rep,
        B.Nodes;
    ghost var s0 := io.View();
    GrewSelf(s0);
    B.Live(s);
    RootFields(s);
    SizeStart(s);
    if n.leaf {
      addr := io.WritePair(LeafNode(n.key, n.val));
      u := PLeaf(addr, n.key, n.val);
      GrewMore(s0, s0, io.View(), addr, LeafNode(n.key, n.val));
      if addr != 0 { FreshLeafTree(s0, io.View(), outer, addr, n.key, n.val); }
      return;
    }
    var slots: seq<Addr> := NoSlots;
    ghost var kids: map<Byte, Tree> := map[];
    NoFreshKids(s0, outer);
    LaidNone(s);
    for i := 0 to 256
      invariant io.Valid() && B.Rep(s) && Grew(s0, io.View())
      invariant FreshKids(s0, io.View(), kids, outer) && LaidBelow(s, kids, slots, i)
      invariant |io.written| == |s0.written| + SizeBelow(B.Strip(s), i)
    {
      KidSize(s, i);
      LaidSkip(s, kids, slots, i);
      RootFields(s);
      if i in n.kids {
        KidTree(s, i);
        ghost var s1 := io.View();
        KidsLoose(s0, s1, kids, outer);
        var a; ghost var c;
        a, c := LayOut(io, n.kids[i], s.kids[i], KidNodes(kids) + outer);
        GrewTwice(s0, s1, io.View());
        if a == 0 { addr, u := 0, PLeaf(0, [], []); return; }
        FreshKid(s0, s1, io.View(), kids, outer, i, c);
        LaidNext(s, kids, slots, i, c);
        slots, kids := slots[i := a], kids[i := c];
      }
    }
    ghost var s1 := io.View();
    LaidSlots(s, kids, slots);
    RootFields(s);
    addr := io.WritePair(InnerNode(n.term, slots));
    u := PInner(addr, n.term, kids);
    GrewMore(s0, s1, io.View(), addr, InnerNode(n.term, slots));
    LaidAll(s, kids, slots, addr);
    if addr != 0 { FreshInner(s0, s1, io.View(), kids, outer, addr, n.term); }
  }

  lemma SizeStart(s: B.Shape)
    ensures s.LeafAt? ==> Size(B.Strip(s)) == 1
    ensures s.InnerAt? ==> SizeBelow(B.Strip(s), 0) == 0 && Size(B.Strip(s)) == 1 + SizeBelow(B.Strip(s), 256)
  {}

  lemma RootFields(s: B.Shape)
    requires B.Rep(s)
    ensures s.LeafAt? ==> s.n.leaf && s.n.key == s.key && s.n.val == s.val
    ensures s.InnerAt? ==> !s.n.leaf && s.n.term == s.term && s.n.kids.Keys == s.kids.Keys
  {}

  lemma KidTree(s: B.Shape, b: Byte)
    requires s.InnerAt? && B.Rep(s) && b in s.kids
    ensures b in s.n.kids && s.n.kids[b] == s.kids[b].n && B.Rep(s.kids[b])
  {}

  lemma LaidNone(s: B.Shape)
    requires s.InnerAt?
    ensures LaidBelow(s, map[], NoSlots, 0)
  {
    NoKidNodes();
  }

  lemma LaidSlots(s: B.Shape, kids: map<Byte, Tree>, slots: seq<Addr>)
    requires s.InnerAt? && LaidBelow(s, kids, slots, 256)
    ensures slots == Slots(kids)
  {}

  lemma LaidSkip(s: B.Shape, kids: map<Byte, Tree>, slots: seq<Addr>, i: Byte)
    requires s.InnerAt? && LaidBelow(s, kids, slots, i)
    ensures i !in kids && |slots| == 256 && (i !in s.kids ==> LaidBelow(s, kids, slots, i + 1))
  {}

  lemma KidsLoose(s0: State, s: State, kids: map<Byte, Tree>, outer: multiset<Addr>)
    requires FreshKids(s0, s, kids, outer)
    ensures Loose(s, KidNodes(kids) + outer)
  {}

  // ---------------------------------------------------------------- two writers, one tree

  predicate Storable(entries: seq<(Key, Val)>) {
    B.Short(entries) && forall i | 0 <= i < |entries| :: |entries[i].1| <= MAX_VAL
  }

  /** Builds in memory, then writes the tree out. */
  method BuildOut(io: NodeStore, entries: seq<(Key, Val)>) returns (addr: Addr, ghost u: Tree)
    requires io.Valid() && Loose(io.View(), multiset{}) && B.Short(entries)
    modifies io, io.fa
    ensures io.Valid() && Grew(old(io.View()), io.View())
    ensures addr != 0 ==> Fresh(old(io.View()), io.View(), u, multiset{}) && Strip(u) == B.Written(entries)
    ensures addr == 0 ==> old(io.View().room) < 8192 * Size(B.Written(entries))
  {
    hide Size, NodeStore.Valid, Fresh, Grew, Loose, B.Rep, B.Nodes;
    var root;
    ghost var s;
    root, s := B.Build(entries);
    addr, u := LayOut(io, root, s, multiset{});
    GrewSpent(old(io.View()), io.View());
  }

  lemma GrewSpent(s: State, s': State)
    requires Grew(s, s')
    ensures Spent(s, s')
  {}

  lemma PutAt(s0: State, s: State, t: Option<Tree>, u: Tree, key: Key, val: Val)
    requires Edited(s0, s, RootNodes(t), u, multiset{}, multiset{}) && WfRoot(StripRoot(t))
        && Strip(u) == PutRoot(StripRoot(t), key, val)
    ensures RootAt(s, u.addr, Some(u), multiset{})
  {
    hide Nodes, Stored, Loose, Strip, Put;
    PutIsMapUpdate(StripRoot(t), key, val, key);
  }

  /** One pair for every byte of a key and two more. */
  ghost function KeyPairs(entries: seq<(Key, Val)>): nat {
    if entries == [] then 0 else KeyPairs(entries[..|entries| - 1]) + |entries[|entries| - 1].0| + 2
  }

  lemma {:induction false} KeyPairsMono(entries: seq<(Key, Val)>, n: nat)
    requires n <= |entries|
    ensures KeyPairs(entries[..n]) <= KeyPairs(entries)
    decreases |entries|
  {
    if n == |entries| {
      assert entries[..n] == entries;
    } else {
      assert entries[..|entries| - 1][..n] == entries[..n];
      KeyPairsMono(entries[..|entries| - 1], n);
    }
  }

  /** The same entries through copy-on-write inserts. */
  method CowOut(io: NodeStore, entries: seq<(Key, Val)>) returns (ok: bool, root: Addr, ghost t: Option<Tree>)
    requires io.Valid() && Loose(io.View(), multiset{}) && Storable(entries)
    modifies io, io.fa
    ensures io.Valid()
    ensures ok ==> RootAt(io.View(), root, t, multiset{}) && StripRoot(t) == PutAll(entries)
    ensures !ok ==> old(io.View().room) < 8192 * KeyPairs(entries)
  {
    hide NodeStore.Valid, Edited, Kept, Loose, RootAt, Strip, Put;
    root, t, ok := 0, None, true;
    assert RootAt(io.View(), root, t, multiset{}) by { NoRoot(io.View()); }
    for i := 0 to |entries|
      invariant ok && io.Valid() && RootAt(io.View(), root, t, multiset{}) && StripRoot(t) == PutAll(entries[..i])
      invariant io.View().room >= old(io.View().room) - 8192 * KeyPairs(entries[..i])
    {
      assert entries[..i + 1][..i] == entries[..i];
      KeyPairsMono(entries, i + 1);
      ghost var s0, was := io.View(), t;
      var st, next; ghost var u;
      st, next, u := CowPut(io, root, entries[i].0, entries[i].1, t, multiset{});
      if st != Ok { ok := false; return; }
      PutAt(s0, io.View(), was, u, entries[i].0, entries[i].1);
      root, t := next, Some(u);
    }
    assert entries[..|entries|] == entries;
  }

  lemma NoRoot(s: State)
    requires Loose(s, multiset{})
    ensures RootAt(s, 0, None, multiset{})
  {}

  /** Any two histories with the same final map leave isomorphic trees, whichever writer each used. */
  lemma WritersAgree(built: seq<(Key, Val)>, edited: seq<(Key, Val)>, u: Tree, t: Option<Tree>)
    requires MapOf(built) == MapOf(edited) && Strip(u) == B.Written(built) && StripRoot(t) == PutAll(edited)
    ensures if edited == [] then t.None? && Strip(u) == EmptyRoot else t.Some? && Strip(t.value) == Strip(u)
  {
    HistoryIndependence(built, edited);
  }
}
