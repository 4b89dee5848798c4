/**
 Node pairs on top of the block allocator: the alloc, emit and retire callbacks
 that the copy-on-write trie writer runs against (kernel/sfs_catcow.c:133-212 and
 kernel/sfs_write.c:646-668).
 */
module NodeStore {
  import opened Base
  import opened TrieDisk
  import opened Extents
  import F = Falloc

  const PAIR: nat := 8192

  ghost predicate Spaced(held: set<Addr>) {
    forall a, b | a in held && b in held && a != b :: a + PAIR <= b || b + PAIR <= a
  }

  /** The pair at a is allocated below the frontier and is not content waiting to be freed. */
  ghost predicate Guarded(s: F.Space, a: Addr) {
    a > 0 && a + PAIR <= s.frontier && Range(a, PAIR) <= s.owned && F.Apart(Range(a, PAIR), s.data)
  }

  /** Pairs that may still be read: allocated, mutually disjoint; the parked ones await the flip. */
  ghost predicate Holding(s: F.Space, held: set<Addr>, parked: set<Addr>) {
    && Spaced(held) && parked <= held
    && (forall a | a in held :: Guarded(s, a))
    && (forall a | a in held && a !in parked :: F.Apart(Range(a, PAIR), s.nodes))
  }

  lemma ApartPairs(a: Addr, b: Addr)
    requires F.Apart(Range(a, PAIR), Range(b, PAIR))
    ensures a + PAIR <= b || b + PAIR <= a
  {
    var x := if a < b then b else a;
    assert x in Range(a, PAIR) ==> x !in Range(b, PAIR);
  }

  lemma HoldAlloc(s: F.Space, s': F.Space, held: set<Addr>, parked: set<Addr>, a: Addr)
    requires F.Inv(s) && Holding(s, held, parked) && F.Allocated(s, s', F.Head, a, PAIR)
    ensures a !in held && Holding(s', held + {a}, parked)
  {
    F.AllocKeeps(s, s', F.Head, a, PAIR);
    forall b | b in held ensures a != b && (a + PAIR <= b || b + PAIR <= a) && Guarded(s', b)
    {
      assert Guarded(s, b);
      ApartPairs(a, b);
    }
    assert Guarded(s', a);
  }

  lemma HoldRetire(s: F.Space, s': F.Space, held: set<Addr>, parked: set<Addr>, a: Addr)
    requires F.Inv(s) && Holding(s, held, parked) && a in held && a !in parked && F.NodeRetired(s, s', a)
    ensures F.Retirable(s, a, PAIR)
    ensures s.floor.None? ==> Holding(s', held, parked)
    ensures s.floor.Some? ==>
        if a >= s.floor.value then Holding(s', held - {a}, parked) else Holding(s', held, parked + {a})
  {
    assert Guarded(s, a);
    forall b | b in held && b != a ensures F.Apart(Range(a, PAIR), Range(b, PAIR)) && Guarded(s', b)
    {
      assert Guarded(s, b);
    }
    if s.floor.Some? && a < s.floor.value { assert Guarded(s', a); }
  }

  /** After the flip the parked pairs are free; everything else is still held. */
  lemma HoldPublish(s: F.Space, s': F.Space, held: set<Addr>, parked: set<Addr>, ref: F.Bytes)
    requires Holding(s, held, parked) && F.Published(s, s', ref)
    ensures Holding(s', held - parked, {})
  {
    forall a | a in held - parked ensures Guarded(s', a)
    {
      assert Guarded(s, a) && F.Apart(Range(a, PAIR), s.nodes);
      forall x | x in Range(a, PAIR) ensures x in s'.owned { assert x !in s.nodes && x !in s.data; }
    }
  }

  lemma HoldAbort(s: F.Space, held: set<Addr>, parked: set<Addr>)
    requires Holding(s, held, parked)
    ensures Holding(F.Aborted(s), held, {})
  {
    forall a | a in held ensures Guarded(F.Aborted(s), a) { assert Guarded(s, a); }
  }

  lemma HoldBegin(s: F.Space, held: set<Addr>, parked: set<Addr>)
    requires Holding(s, held, parked) && s.floor.None?
    ensures Holding(F.Begun(s), held, parked) && F.Begun(s).floor.Some?
    ensures forall a | a in held :: a < F.Begun(s).floor.value
  {
    forall a | a in held ensures Guarded(F.Begun(s), a) && a < F.Begun(s).floor.value { assert Guarded(s, a); }
  }

  /** All bytes of a set of pairs. */
  ghost function PairBytes(pins: set<Addr>): F.Bytes { iset x, a | a in pins && x in Range(a, PAIR) :: x }

  lemma PinsPublishable(s: F.Space, held: set<Addr>, parked: set<Addr>, pins: set<Addr>)
    requires Holding(s, held, parked) && pins <= held - parked
    ensures F.Publishable(s, PairBytes(pins))
  {
    forall x | x in PairBytes(pins)
      ensures x in s.owned && x !in s.nodes && x !in s.data && x < s.frontier
    {
      var a :| a in pins && x in Range(a, PAIR);
      assert Guarded(s, a) && F.Apart(Range(a, PAIR), s.nodes);
    }
  }

  lemma PairRounds()
    ensures F.RoundUp(PAIR) == PAIR
  {}

  lemma FloorKept(s: F.Space, s': F.Space, a: Addr)
    requires F.Allocated(s, s', F.Head, a, PAIR)
    ensures s'.floor == s.floor && s'.cap - s'.frontier >= s.cap - s.frontier - 8192
  {}

  lemma PairUpdate(d: Disk, held: set<Addr>, a: Addr, n: Node)
    ensures forall x | x in held :: SameAt(d, d, x)
    ensures var d' := d[a + BLOCK := n][a := n];
            && Get(d', a) == Get(d', a + BLOCK) == Some(n)
            && forall x | x in held && (a + PAIR <= x || x + PAIR <= a) :: SameAt(d, d', x)
  {}

  /** What the trie writer can see of the store, as a value; room is the gap between frontier and tail. */
  datatype State = State(disk: Disk, held: set<Addr>, parked: set<Addr>, pinned: set<Addr>, base: Disk,
                         emitted: set<Addr>, written: seq<Addr>, retired: seq<Addr>, floor: Option<nat>,
                         room: int)

  /** One fresh pair came into being (unless addr is zero) and everything held before reads the same. */
  ghost predicate Wrote(s: State, s': State, addr: Addr, n: Node) {
    && s'.parked == s.parked && s'.pinned == s.pinned && s'.base == s.base && s'.retired == s.retired
    && s'.floor == s.floor && s.emitted <= s'.emitted
    && (addr == 0 ==> s'.disk == s.disk && s'.held == s.held && s'.written == s.written)
    && s'.room >= (if addr == 0 then s.room else s.room - 8192) && (addr == 0 ==> s'.room < 8192)
    && (addr != 0 ==>
          && addr !in s.held && s'.held == s.held + {addr} && s'.written == s.written + [addr]
          && Get(s'.disk, addr) == Get(s'.disk, addr + BLOCK) == Some(n))
    && (forall a | a in s.held :: SameAt(s.disk, s'.disk, a))
  }

  /** A pair was retired: freed at once above the floor, parked below it. */
  ghost predicate Dropped(s: State, s': State, addr: Addr) {
    && s'.disk == s.disk && s'.pinned == s.pinned && s'.base == s.base && s'.emitted == s.emitted
    && s'.written == s.written && s'.retired == s.retired + [addr] && s'.floor == s.floor && s'.room == s.room
    && s'.held == (if s.floor.Some? && addr >= s.floor.value then s.held - {addr} else s.held)
    && s'.parked == (if s.floor.Some? && addr < s.floor.value then s.parked + {addr} else s.parked)
  }

  class NodeStore {
    const fa: F.Falloc
    var disk: Disk
    var nodesWritten: nat

    ghost var held: set<Addr>
    ghost var parked: set<Addr>
    ghost var pinned: set<Addr>    // nodes of the roots a reader may start from
    ghost var base: Disk           // the device at the last barrier
    ghost var emitted: set<Addr>   // blocks written since
    ghost var written: seq<Addr>
    ghost var retired: seq<Addr>

    /** After mount: the published nodes are the only pairs held. */
    constructor (fa: F.Falloc, disk: Disk, ghost held: set<Addr>)
      requires fa.Valid() && fa.floor.None? && Holding(fa.Abs(), held, {})
      ensures Valid() && this.fa == fa && this.disk == disk && this.held == held == pinned && parked == {}
      ensures base == disk && emitted == {} && written == [] && retired == []
    {
      this.fa, this.disk, nodesWritten := fa, disk, 0;
      this.held, parked, pinned, base, emitted := held, {}, held, disk, {};
      written, retired := [], [];
    }

    /** No block of a pinned node has been written since the last barrier. */
    ghost predicate Shielded()
      reads this, fa
    {
      && pinned <= held
      && (forall a | a in pinned :: a !in emitted && a + BLOCK !in emitted)
      && (fa.floor.Some? ==> forall a | a in pinned :: a < fa.floor.value)
      && (forall b | b !in emitted :: Get(disk, b) == Get(base, b))
    }

    ghost function View(): State
      reads this, fa
    {
      State(disk, held, parked, pinned, base, emitted, written, retired, fa.floor, fa.cap - fa.frontier)
    }

    ghost predicate Valid()
      reads this, fa
    {
      fa.Valid() && Holding(fa.Abs(), held, parked) && Shielded()
    }

    /** The allocation callback: a pair apart from everything that may still be read. */
    method AllocPair() returns (addr: Addr)
      requires Valid()
      modifies fa
      ensures fa.Valid() && Shielded() && fa.floor == old(fa.floor)
      ensures addr == 0 ==> Holding(fa.Abs(), held, parked) && fa.cap - fa.frontier < 8192
      ensures fa.cap - fa.frontier >= old(fa.cap - fa.frontier) - (if addr == 0 then 0 else 8192)
      ensures addr != 0 ==> Holding(fa.Abs(), held + {addr}, parked) && addr !in held
    {
      hide F.Allocated, F.Inv, Cover, Extents.Canonical, Guarded, F.RoundUp, F.Apart, Range;
      ghost var s := fa.Abs();
      assert F.RoundUp(PAIR) == PAIR by { PairRounds(); }
      addr := fa.Alloc(PAIR, F.Head);
      if addr != 0 {
        HoldAlloc(s, fa.Abs(), held, parked, addr);
        FloorKept(s, fa.Abs(), addr);
      }
    }

    /** Allocates a pair and emits backup, then primary.  Zero means out of space. */
    method WritePair(n: Node) returns (addr: Addr)
      requires Valid()
      modifies this, fa
      ensures Valid() && Wrote(old(View()), View(), addr, n)
      ensures nodesWritten - |written| == old(nodesWritten) - |old(written)|
    {
      hide F.Falloc.Valid, Guarded, F.Apart, Range, Get, SameAt;
      addr := AllocPair();
      PairUpdate(disk, held, addr, n);
      if addr == 0 { return; }
      assert forall a | a in held :: a + PAIR <= addr || addr + PAIR <= a;
      Emit(addr + BLOCK, n);
      Emit(addr, n);
      held, written, nodesWritten := held + {addr}, written + [addr], nodesWritten + 1;
    }

    /** One block reaches the device; it must not belong to a pair that may still be read. */
    method Emit(b: Addr, n: Node)
      requires Shielded() && forall a | a in held :: b != a && b != a + BLOCK
      modifies this`disk, this`emitted
      ensures Shielded() && disk == old(disk)[b := n] && emitted == old(emitted) + {b}
    {
      disk, emitted := disk[b := n], emitted + {b};
    }

    /** Supersession: freed at once above the reclaim floor, parked until the flip below it. */
    method Retire(addr: Addr)
      requires Valid() && addr in held && addr !in parked
      modifies this, fa
      ensures Valid() && Dropped(old(View()), View(), addr) && nodesWritten == old(nodesWritten)
    {
      ghost var s := fa.Abs();
      assert F.Retirable(s, addr, PAIR) by { assert Guarded(s, addr); }
      fa.RetireNode(addr);
      HoldRetire(s, fa.Abs(), held, parked, addr);
      hide F.NodeRetired;
      retired := retired + [addr];
      if fa.floor.Some? {
        if addr >= fa.floor.value { held := held - {addr}; } else { parked := parked + {addr}; }
      }
    }

    /** Opens a publish scope above which nothing published lives; what an earlier scope left in flight stays so. */
    method Open()
      requires Valid() && fa.floor.None? && parked == {}
      modifies this, fa
      ensures Valid() && fa.floor.Some? && View() == old(View()).(written := [], retired := [], floor := fa.floor)
    {
      hide F.Inv, Guarded;
      HoldBegin(fa.Abs(), held, parked);
      fa.Begin();
      written, retired := [], [];
    }

    /** First barrier: every emitted block is durable. */
    method Flush()
      requires Valid()
      modifies this
      ensures Valid() && View() == old(View()).(base := disk, emitted := {})
    {
      hide F.Falloc.Valid, Holding;
      base, emitted := disk, {};
    }

    /** The flip happened: deferred frees are released and the new roots are the published ones. */
    method Settle(ghost pins: set<Addr>)
      requires Valid() && pins <= held - parked
      modifies this, fa
      ensures Valid() && fa.floor.None? && disk == base == old(disk) && held == old(held) - old(parked) && parked == {}
          && pinned == pins
    {
      hide F.Inv, Guarded;
      ghost var s := fa.Abs();
      PinsPublishable(s, held, parked, pins);
      fa.Publish(PairBytes(pins));
      HoldPublish(s, fa.Abs(), held, parked, PairBytes(pins));
      held, parked, pinned, base, emitted := held - parked, {}, pins, disk, {};
    }

    /**
     The scope failed: deferred frees are forgotten, and the nodes of a header it issued are kept like
     published ones.
     */
    method Revert(ghost more: set<Addr>)
      requires Valid() && more <= held && forall a | a in more :: a !in emitted && a + BLOCK !in emitted
      modifies this, fa
      ensures Valid() && View() == old(View()).(parked := {}, pinned := old(pinned) + more, floor := None)
    {
      hide F.Inv, Guarded;
      HoldAbort(fa.Abs(), held, parked);
      fa.Abort();
      parked, pinned := {}, pinned + more;
    }
  }
}
