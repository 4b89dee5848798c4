/**
 The double header over the two catalogs: open a scope, edit the catalogs by path
 copying, flush, flip the inactive slot (kernel/sfs_header.c:139-193,
 kernel/sfs_write.c:2848-2884 and 3059-3105).  Any of these may fail and the commit be
 tried again from the published catalogs, with whatever the failed one left in
 flight.  A crash at any point leaves both catalogs of one commit: the published
 one, or one whose header was issued since.
 */
module Volume {
  import opened Base
  import opened Trie
  import opened TrieDisk
  import F = Falloc
  import opened NodeStore
  import opened CatCow
  import opened CatRemove

  /** The fields of a valid header slot that a commit changes. */
  datatype Header = Header(commit: nat, keyRoot: Addr, idRoot: Addr)

  /** The valid slot with the higher sequence number; ties go to slot 0. */
  function ActiveSlot(h0: Option<Header>, h1: Option<Header>): Option<nat> {
    if h0.Some? && h1.Some? then (if h1.value.commit > h0.value.commit then Some(1) else Some(0))
    else if h0.Some? then Some(0)
    else if h1.Some? then Some(1)
    else None
  }

  function Active(h0: Option<Header>, h1: Option<Header>): Option<Header> {
    match ActiveSlot(h0, h1) case None => None case Some(i) => if i == 0 then h0 else h1
  }

  /** The active header is a valid slot no valid slot exceeds; with equal numbers it is the first slot's. */
  lemma ActiveHighest(h0: Option<Header>, h1: Option<Header>)
    ensures Active(h0, h1).None? <==> h0.None? && h1.None?
    ensures h0.Some? && (h1.Some? ==> h1.value.commit <= h0.value.commit) ==>
              ActiveSlot(h0, h1) == Some(0) && Active(h0, h1) == h0
    ensures h1.Some? && (h0.Some? ==> h0.value.commit < h1.value.commit) ==>
              ActiveSlot(h0, h1) == Some(1) && Active(h0, h1) == h1
  {}

  /** What a slot may read as after a crash while a write to it is in flight: old, torn or new. */
  ghost predicate SlotImage(c: Option<Header>, durable: Option<Header>, pending: Option<Header>) {
    c == durable || (pending.Some? && (c == None || c == pending))
  }

  /** Writing the inactive slot with the next number never makes anything but the old or the new header active. */
  lemma FlipAtomic(h0: Option<Header>, h1: Option<Header>, next: Option<Header>, c0: Option<Header>, c1: Option<Header>)
    requires Active(h0, h1).Some? && (next.Some? ==> next.value.commit == Active(h0, h1).value.commit + 1)
    requires if ActiveSlot(h0, h1) == Some(0) then
        c0 == h0 && SlotImage(c1, h1, next) else SlotImage(c0, h0, next) && c1 == h1
    ensures Active(c0, c1) == Active(h0, h1) || (next.Some? && Active(c0, c1) == next)
    ensures next.Some? && (c0 == next || c1 == next) ==> Active(c0, c1) == next
  {}

  lemma FlipWins(h0: Option<Header>, h1: Option<Header>, slot: nat, h: Header)
    requires Active(h0, h1).Some? && h.commit == Active(h0, h1).value.commit + 1 && slot < 2
    requires slot != ActiveSlot(h0, h1).value
    ensures if slot == 0 then Active(Some(h), h1) == Some(h) else Active(h0, Some(h)) == Some(h)
  {}

  // ---------------------------------------------------------------- maps

  /** The finite map a catalog stands for. */
  ghost function Bindings(t: Option<Tree>): imap<Key, Val> {
    imap k: Key | LookupRoot(StripRoot(t), k).Some? :: LookupRoot(StripRoot(t), k).value
  }

  lemma PutBindings(t: Option<Tree>, u: Tree, key: Key, val: Val)
    requires WfRoot(StripRoot(t)) && Strip(u) == PutRoot(StripRoot(t), key, val)
    ensures Bindings(Some(u)) == Bindings(t)[key := val] && Wf(Strip(u), [])
  {
    hide Strip, Put, Wf, Lookup;
    forall k ensures LookupRoot(Some(Strip(u)), k) == if k == key then Some(val) else LookupRoot(StripRoot(t), k)
    {
      PutIsMapUpdate(StripRoot(t), key, val, k);
    }
    PutIsMapUpdate(StripRoot(t), key, val, key);
  }

  lemma RemoveBindings(t: Option<Tree>, u: Option<Tree>, key: Key)
    requires WfRoot(StripRoot(t)) && StripRoot(u) == RemoveRoot(StripRoot(t), key)
    ensures Bindings(u) == Without(Bindings(t), key) && WfRoot(StripRoot(u))
  {
    hide Strip, Remove, Wf, Lookup;
    forall k ensures LookupRoot(StripRoot(u), k) == if k == key then None else LookupRoot(StripRoot(t), k)
    {
      RemoveIsMapDelete(StripRoot(t), key, k);
    }
    RemoveIsMapDelete(StripRoot(t), key, key);
  }

  // ---------------------------------------------------------------- the state of one commit

  ghost predicate Both(s: State, keyRoot: Addr, kt: Option<Tree>, idRoot: Addr, it: Option<Tree>) {
    RootAt(s, keyRoot, kt, RootNodes(it)) && RootAt(s, idRoot, it, RootNodes(kt))
  }

  /** A published root: stored on d, under pinned pairs only. */
  ghost predicate Anchored(d: Disk, pinned: set<Addr>, root: Addr, t: Option<Tree>) {
    && (t.None? ==> root == 0)
    && (t.Some? ==> t.value.addr == root && Stored(d, t.value) && Wf(Strip(t.value), []))
    && (forall a | a in RootNodes(t) :: a in pinned)
  }

  ghost predicate Singly(m: multiset<Addr>) { forall a | a in m :: m[a] == 1 }

  /** A reader starting at root sees exactly the catalog t. */
  ghost predicate Opens(d: Disk, root: Addr, t: Option<Tree>) {
    match t case None => root == 0 case Some(w) => root == w.addr && Readable(d, w) && Wf(Strip(w), [])
  }

  lemma OneSide(m: multiset<Addr>, n: multiset<Addr>, a: Addr)
    requires a in m && (m + n)[a] == 1
    ensures a !in n
  {}

  /** The catalog that was not edited is where it was. */
  lemma OtherRoot(s0: State, s: State, root: Addr, t: Option<Tree>, edited: Option<Tree>, u: Tree)
    requires RootAt(s0, root, t, RootNodes(edited)) && Kept(s0, s, RootNodes(edited)) && Sits(s, u, RootNodes(t))
    ensures RootAt(s, root, t, RootNodes(Some(u)))
  {
    hide Nodes, Stored, SameAt, Wf, Strip;
    assert RootNodes(t) + Nodes(u) == Nodes(u) + RootNodes(t);
    if t.Some? {
      forall a | a in Nodes(t.value) ensures SameAt(s0.disk, s.disk, a)
      {
        assert a in Nodes(t.value) + RootNodes(edited);
        OneSide(Nodes(t.value), RootNodes(edited), a);
      }
      StoredFrame(s0.disk, s.disk, t.value);
    } else {
      assert RootNodes(t) + Nodes(u) == Nodes(u);
    }
  }

  /** Blocks off the emitted set are what they were; the anchored tree has none of the others. */
  lemma AnchoredOpens(base: Disk, d: Disk, emitted: set<Addr>, pinned: set<Addr>, root: Addr, t: Option<Tree>)
    requires Anchored(base, pinned, root, t) && forall b | b !in emitted :: Get(d, b) == Get(base, b)
    requires forall a | a in pinned :: a !in emitted && a + BLOCK !in emitted
    ensures Anchored(d, pinned, root, t) && Opens(d, root, t)
  {
    hide Nodes, Stored, Readable, Wf, Strip;
    if t.Some? {
      forall a | a in Nodes(t.value) ensures SameAt(base, d, a) { assert a in RootNodes(t); }
      StoredFrame(base, d, t.value);
      StoredReadable(d, t.value);
    }
  }

  lemma RootOpens(s: State, root: Addr, t: Option<Tree>, outer: multiset<Addr>, d: Disk)
    requires RootAt(s, root, t, outer) && forall b :: Get(d, b) == Get(s.disk, b)
    ensures Opens(d, root, t)
  {
    hide Nodes, Wf, Strip, Stored, Readable;
    if t.Some? {
      StoredFrame(s.disk, d, t.value);
      StoredReadable(d, t.value);
    }
  }

  lemma AnchoredRoots(s: State, keyRoot: Addr, kt: Option<Tree>, idRoot: Addr, it: Option<Tree>)
    requires Anchored(s.disk, s.pinned, keyRoot, kt) && Anchored(s.disk, s.pinned, idRoot, it)
    requires Singly(RootNodes(kt) + RootNodes(it)) && s.pinned <= s.held && s.parked == {}
    ensures Both(s, keyRoot, kt, idRoot, it)
  {
    hide Nodes, Wf, Strip, Stored;
    assert RootNodes(kt) + RootNodes(it) == RootNodes(it) + RootNodes(kt);
    forall a | a in RootNodes(kt) + RootNodes(it) ensures a in s.held {}
    if kt.None? { assert RootNodes(kt) + RootNodes(it) == RootNodes(it); }
    if it.None? { assert RootNodes(it) + RootNodes(kt) == RootNodes(kt); }
  }

  lemma RootsAnchored(s: State, keyRoot: Addr, kt: Option<Tree>, idRoot: Addr, it: Option<Tree>, pins: set<Addr>)
    requires Both(s, keyRoot, kt, idRoot, it) && forall a | a in RootNodes(kt) + RootNodes(it) :: a in pins
    ensures Anchored(s.disk, pins, keyRoot, kt) && Anchored(s.disk, pins, idRoot, it)
    ensures Singly(RootNodes(kt) + RootNodes(it)) && forall a | a in RootNodes(kt) + RootNodes(it) ::
        a in s.held && a !in s.parked
  {
    hide Nodes, Wf, Strip, Stored;
    forall a | a in RootNodes(kt) ensures a in pins { assert a in RootNodes(kt) + RootNodes(it); }
    forall a | a in RootNodes(it) ensures a in pins { assert a in RootNodes(kt) + RootNodes(it); }
    if kt.None? { assert RootNodes(kt) + RootNodes(it) == RootNodes(it); }
    else if it.None? { assert RootNodes(it) + RootNodes(kt) == RootNodes(kt) == RootNodes(kt) + RootNodes(it); }
  }

  /** A barrier changes nothing a writer sees. */
  lemma BothFlushed(s: State, keyRoot: Addr, kt: Option<Tree>, idRoot: Addr, it: Option<Tree>)
    requires Both(s, keyRoot, kt, idRoot, it)
    ensures Both(s.(base := s.disk, emitted := {}), keyRoot, kt, idRoot, it)
  {}

  datatype Cat = Keys | Ids

  /** The two catalogs of one commit. */
  datatype Pair = Pair(keys: Option<Tree>, ids: Option<Tree>) {
    function Of(cat: Cat): Option<Tree> { if cat.Keys? then keys else ids }

    function With(cat: Cat, t: Option<Tree>): Pair { if cat.Keys? then Pair(t, ids) else Pair(keys, t) }
  }

  ghost predicate AnchoredPair(d: Disk, pinned: set<Addr>, h: Header, p: Pair) {
    Anchored(d, pinned, h.keyRoot, p.keys) && Anchored(d, pinned, h.idRoot, p.ids)
  }

  ghost predicate OpensPair(d: Disk, h: Header, p: Pair) { Opens(d, h.keyRoot, p.keys) && Opens(d, h.idRoot, p.ids) }

  lemma PairOpens(s: State, d: Disk, h: Header, p: Pair)
    requires Shield(s) && AnchoredPair(s.base, s.pinned, h, p) && forall b | b !in s.emitted ::
        Get(d, b) == Get(s.base, b)
    ensures AnchoredPair(d, s.pinned, h, p) && OpensPair(d, h, p)
  {
    hide Anchored, Opens, Get;
    AnchoredOpens(s.base, d, s.emitted, s.pinned, h.keyRoot, p.keys);
    AnchoredOpens(s.base, d, s.emitted, s.pinned, h.idRoot, p.ids);
  }

  lemma PairKept(d: Disk, pinned: set<Addr>, more: set<Addr>, h: Header, p: Pair)
    requires AnchoredPair(d, pinned, h, p) && pinned <= more
    ensures AnchoredPair(d, more, h, p)
  {
    hide Nodes, Stored, Wf, Strip;
  }

  /** Pinned nodes are held and out of reach of every write since the last barrier. */
  ghost predicate Shield(s: State) {
    && s.pinned <= s.held && (forall a | a in s.pinned :: a !in s.emitted && a + BLOCK !in s.emitted)
    && (forall b | b !in s.emitted :: Get(s.disk, b) == Get(s.base, b))
  }

  lemma ShieldOf(io: NodeStore)
    requires io.Valid()
    ensures Shield(io.View())
  {}

  // ---------------------------------------------------------------- one commit after another

  /**
   Everything the commit protocol knows.  The header of the last commit that succeeded and its catalogs; the
   working roots; what the active slot on the device names; a header write that no barrier has covered yet and what
   it names; whether the open scope wrote it; and what all headers issued since the last success named.
   */
  datatype Ledger = Ledger(slot0: Option<Header>, slot1: Option<Header>, hdr: Header, pub: Pair, keyRoot: Addr,
                           idRoot: Addr, work: Pair, failed: bool, found: Pair, pending: Option<Header>, flying: Pair,
                           issued: bool, tries: seq<Pair>)
  {
    function Top(): Option<Header> { Active(slot0, slot1) }

    /** A header that a reader may find names this pair: the published one, or one issued since. */
    predicate Tried(p: Pair) { p == pub || p in tries }

    /** What the two slots may read as while a write is in flight. */
    ghost predicate SlotImages(c0: Option<Header>, c1: Option<Header>) {
      if ActiveSlot(slot0, slot1) == Some(0) then c0 == slot0 && SlotImage(c1, slot1, pending)
      else SlotImage(c0, slot0, pending) && c1 == slot1
    }
  }

  /** Only the working state differs. */
  ghost predicate Edits(l: Ledger, l': Ledger) {
    l' == l.(keyRoot := l'.keyRoot, idRoot := l'.idRoot, work := l'.work, failed := l'.failed)
  }

  /** The published catalogs and those the device names are whole. */
  ghost predicate Standing(l: Ledger, s: State) {
    && AnchoredPair(s.base, s.pinned, l.hdr, l.pub) && Singly(RootNodes(l.pub.keys) + RootNodes(l.pub.ids))
    && l.Top().Some? && AnchoredPair(s.base, s.pinned, l.Top().value, l.found) && l.Tried(l.found)
  }

  ghost predicate Working(l: Ledger, s: State) { Both(s, l.keyRoot, l.work.keys, l.idRoot, l.work.ids) }

  /** A header in flight names what the open scope built, or what a failed one left behind. */
  ghost predicate Flight(l: Ledger, s: State) {
    && (l.issued ==> l.pending.Some? && !l.failed && s.emitted == {} && l.flying == l.work)
    && (l.pending.Some? ==>
          && l.Top().Some? && l.pending.value.commit == l.Top().value.commit + 1 && l.Tried(l.flying)
          && if l.issued then l.pending.value.keyRoot == l.keyRoot && l.pending.value.idRoot == l.idRoot
             else AnchoredPair(s.base, s.pinned, l.pending.value, l.flying))
  }

  ghost predicate Sound(l: Ledger, s: State) {
    Shield(s) && Standing(l, s) && (!l.failed ==> Working(l, s)) && Flight(l, s)
  }

  /** Between commits the working state is the published one; a failed flip may still be in flight. */
  ghost predicate Resting(l: Ledger, s: State) {
    && Sound(l, s) && !l.failed && !l.issued && s.floor.None? && s.parked == {}
    && l.work == l.pub && l.keyRoot == l.hdr.keyRoot && l.idRoot == l.hdr.idRoot
  }

  /** Anything a crash right now may leave behind. */
  ghost predicate CrashImage(l: Ledger, s: State, d: Disk, c0: Option<Header>, c1: Option<Header>) {
    (forall b | b !in s.emitted :: Get(d, b) == Get(s.base, b)) && l.SlotImages(c0, c1)
  }

  lemma WorkOpens(l: Ledger, s: State, d: Disk)
    requires Sound(l, s) && l.issued && forall b :: Get(d, b) == Get(s.base, b)
    ensures OpensPair(d, l.pending.value, l.flying)
  {
    hide Opens, Get, RootAt, Anchored, Singly;
    RootOpens(s, l.keyRoot, l.work.keys, RootNodes(l.work.ids), d);
    RootOpens(s, l.idRoot, l.work.ids, RootNodes(l.work.keys), d);
  }

  /**
   Reopening after a crash finds both catalogs of one commit: the published one, or one whose header was issued
   since.
   */
  lemma CrashAtomic(l: Ledger, s: State, d: Disk, c0: Option<Header>, c1: Option<Header>)
    requires Sound(l, s) && CrashImage(l, s, d, c0, c1)
    ensures Active(c0, c1).Some?
    ensures exists p :: l.Tried(p) && OpensPair(d, Active(c0, c1).value, p)
    ensures l.pending.None? ==> Active(c0, c1) == l.Top() && OpensPair(d, l.Top().value, l.found)
  {
    hide OpensPair, AnchoredPair, Both, Get, Singly;
    FlipAtomic(l.slot0, l.slot1, l.pending, c0, c1);
    PairOpens(s, d, l.Top().value, l.found);
    if l.pending.Some? {
      if l.issued { WorkOpens(l, s, d); } else { PairOpens(s, d, l.pending.value, l.flying); }
    }
  }

  /** The roots of the last success, seen by a new scope. */
  lemma RestSound(l: Ledger, s: State)
    requires Shield(s) && Standing(l, s) && Flight(l, s) && s.parked == {} && !l.issued && !l.failed
    requires l.work == l.pub && l.keyRoot == l.hdr.keyRoot && l.idRoot == l.hdr.idRoot
    ensures Sound(l, s)
  {
    hide Anchored, Singly, Both, Get, Opens;
    PairOpens(s, s.disk, l.hdr, l.pub);
    AnchoredRoots(s, l.keyRoot, l.work.keys, l.idRoot, l.work.ids);
  }

  /** After the first barrier an earlier header in flight has landed, is torn, or never arrived. */
  ghost function Flushed(l: Ledger, c0: Option<Header>, c1: Option<Header>): Ledger {
    l.(slot0 := c0, slot1 := c1, pending := None, found := if Active(c0, c1) == l.Top() then l.found else l.flying)
  }

  lemma FlushSound(l: Ledger, s: State, c0: Option<Header>, c1: Option<Header>)
    requires Sound(l, s) && !l.failed && !l.issued && l.SlotImages(c0, c1)
    ensures Sound(Flushed(l, c0, c1), s.(base := s.disk, emitted := {}))
  {
    hide AnchoredPair, Singly, Get, OpensPair, RootAt;
    FlipAtomic(l.slot0, l.slot1, l.pending, c0, c1);
    PairOpens(s, s.disk, l.hdr, l.pub);
    PairOpens(s, s.disk, l.Top().value, l.found);
    if l.pending.Some? { PairOpens(s, s.disk, l.pending.value, l.flying); }
    BothFlushed(s, l.keyRoot, l.work.keys, l.idRoot, l.work.ids);
  }

  ghost function Issued(l: Ledger, h: Header): Ledger {
    l.(pending := Some(h), flying := l.work, issued := true, tries := l.tries + [l.work])
  }

  lemma IssueSound(l: Ledger, s: State)
    requires Sound(l, s) && !l.failed && !l.issued && l.pending.None? && s.emitted == {}
    ensures Sound(Issued(l, Header(l.Top().value.commit + 1, l.keyRoot, l.idRoot)), s)
  {
    hide AnchoredPair, Singly, Get, RootAt;
  }

  ghost function PairNodes(p: Pair): set<Addr> { var all := RootNodes(p.keys) + RootNodes(p.ids); set a | a in all }

  /** What the open scope has built is whole, held and not retired. */
  lemma WorkAnchored(l: Ledger, s: State)
    requires Sound(l, s) && !l.failed
    ensures AnchoredPair(s.disk, PairNodes(l.work), Header(0, l.keyRoot, l.idRoot), l.work)
    ensures PairNodes(l.work) <= s.held - s.parked && Singly(RootNodes(l.work.keys) + RootNodes(l.work.ids))
  {
    hide RootAt, Singly, RootNodes, Get, Anchored;
    RootsAnchored(s, l.keyRoot, l.work.keys, l.idRoot, l.work.ids, PairNodes(l.work));
  }

  ghost function Settled(l: Ledger, slot: nat, h: Header): Ledger {
    l.(slot0 := if slot == 0 then Some(h) else l.slot0, slot1 := if slot == 0 then l.slot1 else Some(h), hdr := h,
       pub := l.work, found := l.work, pending := None, issued := false, tries := [])
  }

  lemma SettleSound(l: Ledger, s: State, s': State, slot: nat)
    requires Sound(l, s) && l.issued && slot < 2 && slot != ActiveSlot(l.slot0, l.slot1).value && Shield(s')
    requires s'.disk == s'.base == s.disk && s'.pinned == PairNodes(l.work) && s'.parked == {} && s'.floor.None?
    ensures Resting(Settled(l, slot, l.pending.value), s') && Settled(l, slot, l.pending.value).Top() == l.pending
  {
    WorkAnchored(l, s);
    FlipWins(l.slot0, l.slot1, slot, l.pending.value);
    var l' := Settled(l, slot, l.pending.value);
    hide Anchored, Singly, Get, Both, Active, ActiveSlot;
    assert Standing(l', s');
    RestSound(l', s');
  }

  ghost function Reverted(l: Ledger): Ledger {
    l.(keyRoot := l.hdr.keyRoot, idRoot := l.hdr.idRoot, work := l.pub, failed := false, issued := false)
  }

  ghost function Left(l: Ledger): set<Addr> { if l.issued then PairNodes(l.work) else {} }

  /** A scope fails, before or after its header was issued. */
  lemma AbortSound(l: Ledger, s: State, s': State)
    requires Sound(l, s) && s' == s.(parked := {}, pinned := s.pinned + Left(l), floor := None) && Shield(s')
    ensures Resting(Reverted(l), s')
  {
    hide Anchored, Singly, Get, Both, Active;
    PairKept(s.base, s.pinned, s'.pinned, l.hdr, l.pub);
    PairKept(s.base, s.pinned, s'.pinned, l.Top().value, l.found);
    if l.issued {
      WorkAnchored(l, s);
      SameDisk(s, PairNodes(l.work), l.pending.value, l.work);
      PairKept(s.base, PairNodes(l.work), s'.pinned, l.pending.value, l.work);
    } else if l.pending.Some? { PairKept(s.base, s.pinned, s'.pinned, l.pending.value, l.flying); }
    RestSound(Reverted(l), s');
  }

  /** With nothing in flight, what is anchored on the device is anchored at the last barrier. */
  lemma SameDisk(s: State, pins: set<Addr>, h: Header, p: Pair)
    requires AnchoredPair(s.disk, pins, h, p) && forall b :: Get(s.disk, b) == Get(s.base, b)
    ensures AnchoredPair(s.base, pins, h, p)
  {
    hide Anchored, Opens;
    AnchoredOpens(s.disk, s.base, {}, pins, h.keyRoot, p.keys);
    AnchoredOpens(s.disk, s.base, {}, pins, h.idRoot, p.ids);
  }

  class Volume {
    const io: NodeStore
    var slot0: Option<Header>
    var slot1: Option<Header>
    var hdr: Header
    var keyRoot: Addr
    var idRoot: Addr
    var failed: bool
    ghost var book: Ledger

    ghost predicate Booked()
      reads this
    {
      && book.slot0 == slot0 && book.slot1 == slot1 && book.hdr == hdr
      && book.keyRoot == keyRoot && book.idRoot == idRoot && book.failed == failed
    }

    ghost predicate Valid()
      reads this, io, io.fa
    {
      io.Valid() && Booked() && Sound(book, io.View())
    }

    ghost predicate Idle()
      reads this, io, io.fa
    {
      io.Valid() && Booked() && Resting(book, io.View())
    }

    /** Mount: the active header names two stored catalogs whose pairs the allocator holds. */
    constructor (io: NodeStore, slot0: Option<Header>, slot1: Option<Header>, ghost p: Pair)
      requires io.Valid() && io.fa.floor.None? && io.parked == {} && io.base == io.disk && Active(slot0, slot1).Some?
      requires AnchoredPair(io.disk, io.pinned, Active(slot0, slot1).value, p)
      requires Singly(RootNodes(p.keys) + RootNodes(p.ids))
      ensures Idle() && this.io == io && book.pub == p && book.tries == [] && book.pending.None?
    {
      hide Anchored, Singly, NodeStore.Valid, Shield, Active, Both;
      var h := Active(slot0, slot1).value;
      this.io, this.slot0, this.slot1, hdr, keyRoot, idRoot, failed := io, slot0, slot1, h, h.keyRoot, h.idRoot, false;
      book := Ledger(slot0, slot1, h, p, h.keyRoot, h.idRoot, p, false, p, None, p, false, []);
      new;
      ShieldOf(io);
      RestSound(book, io.View());
    }

    /** Starts a publish scope.  No barrier: what a failed scope left in flight may still be lost. */
    method Begin()
      requires Idle()
      modifies io, io.fa
      ensures Valid() && io.fa.floor.Some? && io.base == old(io.base) && io.emitted == old(io.emitted)
      ensures io.View().room == old(io.View().room)
    {
      hide NodeStore.Valid, Standing, Flight, Shield;
      io.Open();
      ShieldOf(io);
      OpenFlight(book, old(io.View()), io.View());
      RestSound(book, io.View());
    }

    /** One catalog edit; the published state and everything in flight are untouched. */
    method Put(cat: Cat, key: Key, val: Val) returns (st: Status)
      requires Valid() && !failed && !book.issued
      modifies this`failed, this`keyRoot, this`idRoot, this`book, io, io.fa
      ensures Valid() && Edits(old(book), book) && io.fa.floor == old(io.fa.floor)
      ensures failed <==> st == NoSpace
      ensures st == NameTooLong || st == Invalid ==> book == old(book)
      ensures Judged(PutOp(cat, key, val), st, old(io.View().room), io.View().room)
      ensures st == Ok ==>
        && book.work == old(book).work.With(cat, book.work.Of(cat))
        && Bindings(book.work.Of(cat)) == Bindings(old(book).work.Of(cat))[key := val]
    {
      hide F.Falloc.Valid, Holding, Stored, Nodes, Loose, Wf, Strip, Anchored, PutRoot, Bindings, Edited, Kept, RootAt,
          NodeStore.Valid, Singly, RootNodes, StripRoot, Active, Shield, Standing, Flight;
      ghost var s0 := io.View();
      ghost var t, rest := book.work.Of(cat), book.work.Of(if cat.Keys? then Ids else Keys);
      var root := if cat.Keys? then keyRoot else idRoot;
      var r;
      ghost var u;
      st, r, u := CowPut(io, root, key, val, t, RootNodes(rest));
      KeptBase(s0, io.View(), RootNodes(t));
      ShieldOf(io);
      failed, book := st == NoSpace, book.(failed := st == NoSpace);
      if st == Ok {
        PutBindings(t, u, key, val);
        NewRoot(s0, io.View(), root, t, r, u, rest, multiset{});
        OtherRoot(s0, io.View(), if cat.Keys? then idRoot else keyRoot, rest, t, u);
        if cat.Keys? { keyRoot := r; } else { idRoot := r; }
        book := book.(keyRoot := keyRoot, idRoot := idRoot, work := book.work.With(cat, Some(u)));
      }
      EditStands(old(book), s0, book, io.View());
    }

    method Remove(cat: Cat, key: Key) returns (st: Status)
      requires Valid() && !failed && !book.issued
      modifies this`failed, this`keyRoot, this`idRoot, this`book, io, io.fa
      ensures Valid() && Edits(old(book), book) && io.fa.floor == old(io.fa.floor)
      ensures failed <==> st == NoSpace
      ensures st == NameTooLong ==> book == old(book)
      ensures Judged(DelOp(cat, key), st, old(io.View().room), io.View().room)
      ensures st == Ok ==>
        && book.work == old(book).work.With(cat, book.work.Of(cat))
        && Bindings(book.work.Of(cat)) == Without(Bindings(old(book).work.Of(cat)), key)
    {
      hide F.Falloc.Valid, Holding, Stored, Nodes, Loose, Wf, Strip, Anchored, Bindings, Edited, Kept, RootAt,
          RemoveRoot, Without, NodeStore.Valid, Singly, RootNodes, LookupRoot, Active, Shield, Standing, Flight;
      ghost var s0 := io.View();
      ghost var t, rest := book.work.Of(cat), book.work.Of(if cat.Keys? then Ids else Keys);
      var root := if cat.Keys? then keyRoot else idRoot;
      RootWf(s0, root, t, RootNodes(rest));
      var r, removed;
      ghost var u, lost;
      st, r, removed, u, lost := CowRemove(io, root, key, t, RootNodes(rest));
      KeptBase(s0, io.View(), RootNodes(t));
      ShieldOf(io);
      failed, book := st == NoSpace, book.(failed := st == NoSpace);
      if st == Ok {
        RemoveBindings(t, u, key);
        if removed {
          NewRoot(s0, io.View(), root, t, r, u.value, rest, lost);
          OtherRoot(s0, io.View(), if cat.Keys? then idRoot else keyRoot, rest, t, u.value);
          if cat.Keys? { keyRoot := r; } else { idRoot := r; }
          book := book.(keyRoot := keyRoot, idRoot := idRoot, work := book.work.With(cat, u));
        }
      }
      EditStands(old(book), s0, book, io.View());
    }

    /** First barrier of the publish, then a look at both slots. */
    method Flush(c0: Option<Header>, c1: Option<Header>)
      requires Valid() && !failed && !book.issued && book.SlotImages(c0, c1)
      modifies this`slot0, this`slot1, this`book, io
      ensures Valid() && book == Flushed(old(book), c0, c1) && io.emitted == {} && io.fa.floor == old(io.fa.floor)
    {
      hide NodeStore.Valid, Sound, Active;
      FlushSound(book, io.View(), c0, c1);
      io.Flush();
      slot0, slot1, book := c0, c1, Flushed(book, c0, c1);
    }

    /** The header write is issued to the inactive slot; until the second barrier it may be lost or torn. */
    method IssueHeader() returns (slot: nat, h: Header)
      requires Valid() && !failed && !book.issued && book.pending.None? && io.emitted == {}
      modifies this`book
      ensures Valid() && book == Issued(old(book), h)
      ensures h == Header(Active(slot0, slot1).value.commit + 1, keyRoot, idRoot)
      ensures slot < 2 && slot != ActiveSlot(slot0, slot1).value
    {
      hide NodeStore.Valid, Shield, AnchoredPair, Both, Singly;
      IssueSound(book, io.View());
      h := Header(Active(slot0, slot1).value.commit + 1, keyRoot, idRoot);
      slot := 1 - ActiveSlot(slot0, slot1).value;
      book := Issued(book, h);
    }

    /** Second barrier: the header is durable, so the new catalogs are the published ones. */
    method Settle(slot: nat, h: Header)
      requires Valid() && book.issued && book.pending == Some(h) && slot < 2 && slot != ActiveSlot(slot0, slot1).value
      modifies this`slot0, this`slot1, this`hdr, this`book, io, io.fa
      ensures Idle() && book == Settled(old(book), slot, h) && Active(slot0, slot1) == Some(h)
    {
      hide NodeStore.Valid, Sound, Active, ActiveSlot, PairNodes, AnchoredPair, Singly, Resting, Shield, RootNodes;
      ghost var s := io.View();
      assert !failed by { IssuedWorks(book, s); }
      WorkAnchored(book, s);
      io.Settle(PairNodes(book.work));
      assert Shield(io.View()) by { ShieldOf(io); }
      SettleSound(book, s, io.View(), slot);
      hdr, book := h, Settled(book, slot, h);
      if slot == 0 { slot0 := Some(h); } else { slot1 := Some(h); }
    }

    /** A failed commit falls back to exactly the published catalogs, whether or not it had issued its header. */
    method Abort()
      requires Valid()
      modifies this`failed, this`keyRoot, this`idRoot, this`book, io, io.fa
      ensures Idle() && book == Reverted(old(book))
    {
      hide NodeStore.Valid, Sound, RootNodes, PairNodes;
      ghost var s := io.View();
      LeftHeld(book, s);
      io.Revert(Left(book));
      ShieldOf(io);
      AbortSound(book, s, io.View());
      keyRoot, idRoot, failed, book := hdr.keyRoot, hdr.idRoot, false, Reverted(book);
    }

    method Edit(op: Op) returns (st: Status)
      requires Valid() && !failed && !book.issued
      modifies this`failed, this`keyRoot, this`idRoot, this`book, io, io.fa
      ensures Valid() && Edits(old(book), book) && (failed <==> st == NoSpace)
      ensures Judged(op, st, old(io.View().room), io.View().room)
      ensures st == Ok ==> Steps(old(book).work, op, book.work)
    {
      hide NodeStore.Valid, Sound, Active, ActiveSlot, Bindings, Judged, Edits;
      match op {
        case PutOp(cat, key, val) => st := Put(cat, key, val);
        case DelOp(cat, key) => st := Remove(cat, key);
      }
    }

    /** The edits of one scope, up to the first that is refused. */
    method ApplyAll(ops: seq<Op>) returns (st: Status)
      requires Valid() && !failed && !book.issued
      modifies this`failed, this`keyRoot, this`idRoot, this`book, io, io.fa
      ensures Valid() && Edits(old(book), book) && (st == Ok ==> !failed && Became(old(book).work, ops, book.work))
      ensures Verdict(ops, st, old(io.View().room))
    {
      hide NodeStore.Valid, Sound, Active, ActiveSlot, Bindings, Became, Steps, Judged, Verdict, Pairs, NodeStore.View;
      var i := 0;
      assert ops[..0] == [];
      BecameStart(book.work);
      ghost var room := io.View().room;
      st := Ok;
      while i < |ops|
        invariant 0 <= i <= |ops| && Valid() && !failed && st == Ok
        invariant Edits(old(book), book) && Became(old(book).work, ops[..i], book.work)
        invariant io.View().room >= room - 8192 * Pairs(ops[..i])
        invariant forall j | 0 <= j < i :: Sized(ops[j])
        decreases |ops| - i
      {
        ghost var w, gap := book.work, io.View().room;
        st := Edit(ops[i]);
        JudgedNext(ops, i, st, room, gap, io.View().room);
        if st != Ok { return; }
        BecameNext(old(book).work, ops, i, w, book.work);
        i := i + 1;
      }
      assert ops[..i] == ops;
      VerdictOk(ops, room);
    }

    /** One whole commit: every edit and the flip, or, wherever it fails, nothing. */
    method Commit(ops: seq<Op>, fault: Fault, c0: Option<Header>, c1: Option<Header>) returns (r: Ended)
      requires Idle() && book.SlotImages(c0, c1)
      modifies this, io, io.fa
      ensures Idle()
      ensures r.Done? ==>
        && fault.Never? && book.tries == [] && book.pending.None? && Became(old(book).pub, ops, book.pub)
        && Some(hdr) == Active(slot0, slot1) && hdr.commit == Active(c0, c1).value.commit + 1
      ensures fault.Never? && (forall i | 0 <= i < |ops| :: Sized(ops[i])) ==>
                old(io.fa.cap - io.fa.frontier) >= 8192 * Pairs(ops) ==> r.Done?
      ensures r == Refused(NoSpace) ==> old(io.fa.cap - io.fa.frontier) < 8192 * Pairs(ops)
      ensures r == Refused(NameTooLong) ==> exists i | 0 <= i < |ops| :: |ops[i].key| > 1024
      ensures r == Refused(Invalid) ==>
        exists i | 0 <= i < |ops| :: ops[i].PutOp? && |ops[i].key| <= 1024 && |ops[i].val| > 16
      ensures r.Faulted? ==> !fault.Never?
      ensures !r.Refused? ==> forall i | 0 <= i < |ops| :: Sized(ops[i])
      ensures !r.Done? ==> book.pub == old(book).pub && hdr == old(hdr)
      ensures r.Refused? ==> book == old(book)
      ensures r.Faulted? && !fault.AtFlip? ==> book.tries == old(book).tries
      ensures r.Faulted? && fault.AtFlip? ==>
        book.tries == old(book).tries + [book.flying] && Became(old(book).pub, ops, book.flying)
    {
      hide NodeStore.Valid, Sound, Active, ActiveSlot, Became, Standing, Flight, Working;
      Begin();
      var st := ApplyAll(ops);
      if st != Ok { Abort(); return Refused(st); }
      if fault.AtBarrier? { Abort(); return Faulted; }
      Flush(c0, c1);
      if fault.AtSlots? { Abort(); return Faulted; }
      var slot, h := IssueHeader();
      if fault.AtFlip? { Abort(); return Faulted; }
      Settle(slot, h);
      r := Done;
    }
  }

  /** Where the device fails a commit: the first barrier, reading the slots, the header write or the second barrier. */
  datatype Fault = Never | AtBarrier | AtSlots | AtFlip

  datatype Ended = Done | Refused(why: Status) | Faulted

  datatype Op = PutOp(cat: Cat, key: Key, val: Val) | DelOp(cat: Cat, key: Key)

  /** An edit within the key and value limits. */
  ghost predicate Sized(op: Op) { |op.key| <= 1024 && (op.PutOp? ==> |op.val| <= 16) }

  /** Node pairs that are always enough for a list of edits. */
  ghost function Pairs(ops: seq<Op>): nat {
    if ops == [] then 0 else Pairs(ops[..|ops| - 1]) + |ops[|ops| - 1].key| + 2
  }

  lemma PairsUpTo(ops: seq<Op>, n: nat)
    requires n < |ops|
    ensures Pairs(ops[..n + 1]) == Pairs(ops[..n]) + |ops[n].key| + 2 && Pairs(ops[..n + 1]) <= Pairs(ops)
  {
    assert ops[..n + 1][..n] == ops[..n];
    PairsMono(ops, n + 1);
  }

  lemma {:induction false} PairsMono(ops: seq<Op>, n: nat)
    requires n <= |ops|
    ensures Pairs(ops[..n]) <= Pairs(ops)
    decreases |ops|
  {
    if n == |ops| {
      assert ops[..n] == ops;
    } else {
      assert ops[..|ops| - 1][..n] == ops[..n];
      PairsMono(ops[..|ops| - 1], n);
    }
  }

  /** How one edit may end, given the gap before and after it. */
  ghost predicate Judged(op: Op, st: Status, room: int, room': int) {
    && (st == NameTooLong <==> |op.key| > 1024)
    && (st == Invalid <==> |op.key| <= 1024 && op.PutOp? && |op.val| > 16)
    && (st == NoSpace ==> room < 8192 * (|op.key| + 2))
    && (st == Ok ==> room' >= room - 8192 * (|op.key| + 2))
  }

  /** How a list of edits may end, given the gap before it. */
  ghost predicate Verdict(ops: seq<Op>, st: Status, room: int) {
    && (st == Ok ==> forall i | 0 <= i < |ops| :: Sized(ops[i]))
    && (st == NoSpace ==> room < 8192 * Pairs(ops))
    && (st == NameTooLong ==> exists i | 0 <= i < |ops| :: |ops[i].key| > 1024)
    && (st == Invalid ==> exists i | 0 <= i < |ops| :: ops[i].PutOp? && |ops[i].key| <= 1024 && |ops[i].val| > 16)
  }

  /** What a list of edits does to the map of one catalog. */
  ghost function Applied(m: imap<Key, Val>, ops: seq<Op>, cat: Cat): imap<Key, Val> {
    if ops == [] then m
    else
      var last, before := ops[|ops| - 1], Applied(m, ops[..|ops| - 1], cat);
      if last.cat != cat then before
      else match last case PutOp(_, k, v) => before[k := v] case DelOp(_, k) => Without(before, k)
  }

  ghost predicate On(op: Op, cat: Cat, k: Key) { op.cat == cat && op.key == k }

  /** The last edit of a key in a catalog decides what that catalog binds it to. */
  lemma {:induction false} LastDecides(m: imap<Key, Val>, ops: seq<Op>, cat: Cat, k: Key, i: nat)
    requires i < |ops| && On(ops[i], cat, k) && forall j | i < j < |ops| :: !On(ops[j], cat, k)
    ensures k in Applied(m, ops, cat) <==> ops[i].PutOp?
    ensures ops[i].PutOp? ==> Applied(m, ops, cat)[k] == ops[i].val
    decreases |ops|
  {
    if i < |ops| - 1 { LastDecides(m, ops[..|ops| - 1], cat, k, i); }
  }

  /** A key no edit names in a catalog keeps its binding there. */
  lemma {:induction false} UntouchedStays(m: imap<Key, Val>, ops: seq<Op>, cat: Cat, k: Key)
    requires forall j | 0 <= j < |ops| :: !On(ops[j], cat, k)
    ensures k in Applied(m, ops, cat) <==> k in m
    ensures k in m ==> Applied(m, ops, cat)[k] == m[k]
    decreases |ops|
  {
    if ops != [] {
      assert !On(ops[|ops| - 1], cat, k);
      UntouchedStays(m, ops[..|ops| - 1], cat, k);
    }
  }

  /** q is p with the edits applied to both maps. */
  ghost predicate Became(p: Pair, ops: seq<Op>, q: Pair) {
    && Bindings(q.keys) == Applied(Bindings(p.keys), ops, Keys)
    && Bindings(q.ids) == Applied(Bindings(p.ids), ops, Ids)
  }

  ghost predicate Steps(w: Pair, op: Op, w': Pair) {
    && w' == w.With(op.cat, w'.Of(op.cat))
    && Bindings(w'.Of(op.cat)) == (match op case PutOp(cat, k, v) => Bindings(w.Of(cat))[k := v]
                                            case DelOp(cat, k) => Without(Bindings(w.Of(cat)), k))
  }

  lemma BecameStart(p: Pair)
    ensures Became(p, [], p)
  {}

  lemma BecameNext(p: Pair, ops: seq<Op>, i: nat, w: Pair, w': Pair)
    requires i < |ops| && Became(p, ops[..i], w) && Steps(w, ops[i], w')
    ensures Became(p, ops[..i + 1], w')
  {
    hide Bindings, Without;
    assert ops[..i + 1][..i] == ops[..i];
  }

  lemma VerdictOk(ops: seq<Op>, room: int)
    requires forall j | 0 <= j < |ops| :: Sized(ops[j])
    ensures Verdict(ops, Ok, room)
  {}

  lemma JudgedNext(ops: seq<Op>, i: nat, st: Status, room: int, gap: int, gap': int)
    requires i < |ops| && Judged(ops[i], st, gap, gap') && gap >= room - 8192 * Pairs(ops[..i])
    ensures st == Ok ==> Sized(ops[i]) && gap' >= room - 8192 * Pairs(ops[..i + 1])
    ensures st != Ok ==> Verdict(ops, st, room)
  {
    hide Pairs;
    PairsUpTo(ops, i);
  }

  ghost function Without(m: imap<Key, Val>, key: Key): imap<Key, Val> { imap k | k in m && k != key :: m[k] }

  lemma RootWf(s: State, root: Addr, t: Option<Tree>, outer: multiset<Addr>)
    requires RootAt(s, root, t, outer)
    ensures WfRoot(StripRoot(t))
  {}

  lemma KeptBase(s0: State, s: State, gone: multiset<Addr>)
    requires Kept(s0, s, gone)
    ensures s.base == s0.base && s.pinned == s0.pinned && s.floor == s0.floor
  {}

  /** Editing the working catalogs leaves what is published, named or in flight as it was. */
  lemma EditStands(l: Ledger, s: State, l': Ledger, s': State)
    requires Standing(l, s) && Flight(l, s) && !l.issued && Edits(l, l') && s'.base == s.base && s'.pinned == s.pinned
    ensures Standing(l', s') && Flight(l', s')
  {
    hide AnchoredPair, Singly, RootNodes, Active;
  }

  lemma OpenFlight(l: Ledger, s: State, s': State)
    requires Sound(l, s) && s' == s.(written := [], retired := [], floor := s'.floor)
    ensures Standing(l, s') && Flight(l, s')
  {
    hide AnchoredPair, Both, Singly;
  }

  lemma IssuedWorks(l: Ledger, s: State)
    requires Sound(l, s) && l.issued
    ensures !l.failed
  {}

  lemma LeftHeld(l: Ledger, s: State)
    requires Sound(l, s)
    ensures Left(l) <= s.held && forall a | a in Left(l) :: a !in s.emitted && a + BLOCK !in s.emitted
  {
    if l.issued { WorkAnchored(l, s); }
  }

  lemma NewRoot(s0: State, s: State, root: Addr, t: Option<Tree>, r: Addr, u: Tree, rest: Option<Tree>,
      lost: multiset<Addr>)
    requires Edited(s0, s, RootNodes(t), u, RootNodes(rest), lost) && u.addr == r && Wf(Strip(u), [])
    ensures RootAt(s, r, Some(u), RootNodes(rest)) && Kept(s0, s, RootNodes(t)) && Sits(s, u, RootNodes(rest))
  {}
}
