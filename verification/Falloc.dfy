/**
 The session block allocator (kernel/sfs_falloc.c): a forward frontier, a
 downward tail, one coalescing free list per region, frees deferred to the header
 flip, aged discard sets and a sub-block packer.
 */
module Falloc {
  import opened Extents
  import opened Base

  const BLOCK: nat := 4096
  const PAIR: nat := 8192

  // Trie node pairs, records and content, evicted copies.
  datatype Region = Head | Live | Tail

  type Bytes = iset<int>

  ghost predicate Apart(a: Bytes, b: Bytes) { forall x :: x in a ==> x !in b }

  /** Whole blocks; a zero length still takes one. */
  function RoundUp(n: nat): (r: nat)
    ensures r >= n && r > 0 && r % BLOCK == 0 && (n > 0 ==> r < n + BLOCK)
  {
    if n == 0 then BLOCK else (n + BLOCK - 1) / BLOCK * BLOCK
  }

  /**
   The allocator seen as byte sets.  `owned` is what has been handed out and not
   returned (deferred frees included), `used` the part of it that carries
   somebody's bytes, `active` and `loser` what the published root and the root in
   the other header slot reference.
   */
  datatype Space = Space(
    lo: nat, hi: nat, frontier: nat, cap: nat, floor: Option<nat>,
    head: Bytes, live: Bytes, tail: Bytes, nodes: Bytes, data: Bytes, pend: Bytes, ok: Bytes,
    base: nat, filled: nat, owned: Bytes, used: Bytes, active: Bytes, loser: Bytes)

  /** Every byte of [lo, hi) is in exactly one place: owned, one free list, or the gap. */
  ghost predicate Parts(s: Space) {
    && 0 < s.lo <= s.frontier <= s.cap <= s.hi
    && (forall x :: x in s.owned ==>
          s.lo <= x < s.hi && !(s.frontier <= x < s.cap) && x !in s.head && x !in s.live && x !in s.tail)
    && (forall x :: x in s.head ==> s.lo <= x < s.frontier && x !in s.live)
    && (forall x :: x in s.live ==> s.lo <= x < s.frontier)
    && (forall x :: x in s.tail ==> s.cap <= x < s.hi)
    && (forall x :: s.lo <= x < s.hi && !(s.frontier <= x < s.cap) && x !in s.head && x !in s.live && x !in s.tail ==>
          x in s.owned)
  }

  /** Deferred frees stay allocated; the published root lies below the open scope's floor. */
  ghost predicate Deferral(s: Space) {
    && Apart(s.nodes, s.data)
    && s.nodes <= s.owned && s.data <= s.owned && s.active <= s.owned
    && (forall x :: x in s.nodes || x in s.data || x in s.active ==> x < s.frontier)
    && (s.floor.Some? ==> s.floor.value <= s.frontier && forall x :: x in s.active ==> x < s.floor.value)
  }

  /** The open pack block is allocated and nothing lives in its unused end. */
  ghost predicate Packing(s: Space) {
    && s.used <= s.owned
    && (s.base != 0 ==>
          && s.filled <= BLOCK
          && Range(s.base, BLOCK) <= s.owned
          && Apart(Range(s.base + s.filled, BLOCK - s.filled), s.used))
  }

  /** A discardable byte is free and neither header slot can reach it. */
  ghost predicate Discards(s: Space) {
    && Apart(s.pend, s.owned) && Apart(s.pend, s.active)
    && Apart(s.ok, s.owned) && Apart(s.ok, s.active) && Apart(s.ok, s.loser)
  }

  ghost predicate Inv(s: Space) { Parts(s) && Deferral(s) && Packing(s) && Discards(s) }

  // ---------------------------------------------------------------- the steps

  ghost function Hand(s: Space, r: Bytes): Space {
    s.(owned := s.owned + r, used := s.used + r, pend := s.pend - r, ok := s.ok - r)
  }

  ghost predicate Allocated(s: Space, s': Space, region: Region, a: nat, n: nat) {
    var r := Range(a, n);
    match region
    case Head => (r <= s.head && s' == Hand(s, r).(head := s.head - r)) || Bumped(s, s', a, n)
    case Live => (r <= s.live && s' == Hand(s, r).(live := s.live - r)) || Bumped(s, s', a, n)
    case Tail => (r <= s.tail && s' == Hand(s, r).(tail := s.tail - r)) ||
                 (a == s.cap - n >= s.frontier && s' == Hand(s, r).(cap := a))
  }

  ghost predicate Bumped(s: Space, s': Space, a: nat, n: nat) {
    a == s.frontier <= s.cap - n && s' == Hand(s, Range(a, n)).(frontier := a + n)
  }

  /** Where the bytes came from: a free list or the gap, never the owned part. */
  lemma AllocSource(s: Space, s': Space, region: Region, a: nat, n: nat)
    requires Parts(s) && n > 0 && Allocated(s, s', region, a, n)
    ensures Apart(Range(a, n), s.owned) && a > 0
    ensures region.Tail? ==> a >= s'.cap && s'.frontier == s.frontier
    ensures !region.Tail? ==> a + n <= s'.frontier && s.frontier <= s'.frontier
  {
    assert a in Range(a, n) && a + n - 1 in Range(a, n);
  }

  lemma AllocParts(s: Space, s': Space, region: Region, a: nat, n: nat)
    requires Parts(s) && n > 0 && Allocated(s, s', region, a, n)
    ensures Parts(s')
  {
    if Bumped(s, s', a, n) {}
  }

  lemma HandKeeps(s: Space, r: Bytes)
    requires Deferral(s) && Packing(s) && Discards(s) && Apart(r, s.owned)
    ensures Deferral(Hand(s, r)) && Packing(Hand(s, r)) && Discards(Hand(s, r))
  {}

  /** An allocation never overlaps anything owned, and keeps the invariant. */
  lemma AllocKeeps(s: Space, s': Space, region: Region, a: nat, n: nat)
    requires Inv(s) && n > 0 && Allocated(s, s', region, a, n)
    ensures Inv(s')
    ensures Apart(Range(a, n), s.owned) && a > 0
    ensures region.Tail? ==> a >= s'.cap
    ensures !region.Tail? ==> a + n <= s'.frontier
  {
    hide Parts, Range;
    AllocSource(s, s', region, a, n);
    AllocParts(s, s', region, a, n);
    HandKeeps(s, Range(a, n));
    assert Deferral(s') && Packing(s') && Discards(s');
  }

  /** A freed range that overlaps the open pack block closes it. */
  ghost function Close(s: Space, a: nat, n: nat): Space {
    if s.base != 0 && a < s.base + BLOCK && a + n > s.base then s.(base := 0, filled := 0) else s
  }

  /** The bytes go back to a free list at once. */
  ghost predicate Freed(s: Space, s': Space, region: Region, a: nat, n: nat) {
    var r := Range(a, n);
    var c := Close(s, a, n).(owned := s.owned - r, used := s.used - r);
    && r <= s.owned && Apart(r, s.nodes) && Apart(r, s.data) && Apart(r, s.active)
    && match region
       case Head => a + n <= s.frontier && s' == c.(head := s.head + r)
       case Live => a + n <= s.frontier && s' == c.(live := s.live + r)
       case Tail => a >= s.cap && s' == c.(tail := s.tail + r)
  }

  lemma FreeParts(s: Space, s': Space, region: Region, a: nat, n: nat)
    requires Parts(s) && n > 0 && Freed(s, s', region, a, n)
    ensures Parts(s')
  {
    assert a in Range(a, n);
  }

  lemma FreeKeeps(s: Space, s': Space, region: Region, a: nat, n: nat)
    requires Inv(s) && n > 0 && Freed(s, s', region, a, n)
    ensures Inv(s')
  {
    FreeParts(s, s', region, a, n);
    hide Parts;
    assert Packing(s') by {
      if s'.base != 0 { assert Apart(Range(s.base, BLOCK), Range(a, n)); }
    }
  }

  /** Outside a scope nothing happens; above the floor the pair is free at once, below it waits. */
  ghost predicate NodeRetired(s: Space, s': Space, a: nat) {
    match s.floor
    case None => s' == s
    case Some(f) => if a >= f then Freed(s, s', Head, a, PAIR) else s' == s.(nodes := s.nodes + Range(a, PAIR))
  }

  ghost predicate Retirable(s: Space, a: nat, n: nat) {
    a + n <= s.frontier && Range(a, n) <= s.owned && Apart(Range(a, n), s.nodes) && Apart(Range(a, n), s.data)
  }

  lemma AboveFloor(s: Space, a: nat)
    requires Inv(s) && s.floor.Some? && a >= s.floor.value
    ensures Apart(Range(a, PAIR), s.active)
  {}

  lemma RetireKeeps(s: Space, s': Space, a: nat)
    requires Inv(s) && Retirable(s, a, PAIR) && NodeRetired(s, s', a)
    ensures Inv(s')
  {
    if s.floor.Some? && a >= s.floor.value { FreeKeeps(s, s', Head, a, PAIR); }
  }

  lemma RetireBlockKeeps(s: Space, a: nat, n: nat)
    requires Inv(s) && Retirable(s, a, n)
    ensures Inv(s.(data := s.data + Range(a, n)))
  {}

  /** The open pack block stays open unless part of it goes. */
  ghost predicate Parting(s: Space, s': Space, gone: Bytes) {
    if s.base == 0 || Apart(Range(s.base, BLOCK), gone) then s'.base == s.base && s'.filled == s.filled
    else s'.base == 0 && s'.filled == 0
  }

  /** The extent misses the open block, or none is open. */
  ghost predicate Clear(base: nat, e: Ext) { base == 0 || e.addr >= base + BLOCK || e.End() <= base }

  lemma ClearApart(base: nat, l: seq<Ext>)
    requires Canonical(l)
    ensures base == 0 || Apart(Range(base, BLOCK), Cover(l)) <==> forall j :: 0 <= j < |l| ==> Clear(base, l[j])
  {
    forall j | 0 <= j < |l| && !Clear(base, l[j]) ensures !Apart(Range(base, BLOCK), Cover(l)) {
      var x := if l[j].addr < base then base else l[j].addr;
      assert x in Range(base, BLOCK) && x in Cover(l);
    }
  }

  /** The flip is durable: deferred frees are released and the discard sets age by one publish. */
  ghost predicate Published(s: Space, s': Space, ref: Bytes) {
    var gone := s.nodes + s.data;
    && s' == s.(ok := s.ok + s.pend, pend := gone, head := s.head + s.nodes, live := s.live + s.data,
                nodes := iset{}, data := iset{}, owned := s.owned - gone, used := s.used - gone,
                active := ref, loser := s.active, floor := None, base := s'.base, filled := s'.filled)
    && Parting(s, s', gone)
  }

  /** A root may be published if everything it references is allocated and not about to be freed. */
  ghost predicate Publishable(s: Space, ref: Bytes) {
    ref <= s.owned && Apart(ref, s.nodes) && Apart(ref, s.data) && forall x :: x in ref ==> x < s.frontier
  }

  lemma PublishParts(s: Space, s': Space, ref: Bytes)
    requires Parts(s) && Deferral(s) && Published(s, s', ref)
    ensures Parts(s')
  {}

  lemma PublishKeeps(s: Space, s': Space, ref: Bytes)
    requires Inv(s) && Publishable(s, ref) && Published(s, s', ref)
    ensures Inv(s')
  {
    PublishParts(s, s', ref);
    hide Parts;
    assert Discards(s') && Packing(s');
    forall x | x in ref ensures x in s'.owned { assert x !in s.nodes && x !in s.data; }
    assert Deferral(s');
  }

  ghost function Aborted(s: Space): Space { s.(nodes := iset{}, data := iset{}, floor := None) }

  ghost function Begun(s: Space): Space {
    if s.floor.None? || s.frontier < s.floor.value then s.(floor := Some(s.frontier)) else s
  }

  /** A sub-slot of the open pack block if it has room, else of a fresh one. */
  ghost predicate Packed(s: Space, s': Space, a: nat, n: nat) {
    if s.base != 0 && s.filled + n <= BLOCK then
      a == s.base + s.filled && s' == s.(filled := s.filled + n, used := s.used + Range(a, n))
    else exists m :: Allocated(s, m, Live, a, BLOCK) && s' == m.(base := a, filled := n, used := s.used + Range(a, n))
  }

  lemma PackOpen(s: Space, m: Space, a: nat, n: nat)
    requires Inv(s) && 0 < n < BLOCK && Allocated(s, m, Live, a, BLOCK)
    ensures Inv(m.(base := a, filled := n, used := s.used + Range(a, n)))
    ensures Apart(Range(a, n), s.used) && Range(a, n) <= m.owned && a > 0
  {
    AllocKeeps(s, m, Live, a, BLOCK);
    assert m.owned == s.owned + Range(a, BLOCK);
    hide Allocated, Parts, Inv;
    var s' := m.(base := a, filled := n, used := s.used + Range(a, n));
    assert Parts(s') by { SameParts(m, s'); }
    assert Packing(s') && Deferral(s') && Discards(s');
    assert Inv(s') by { PackInv(s'); }
  }

  lemma PackInv(s: Space)
    requires Parts(s) && Deferral(s) && Packing(s) && Discards(s)
    ensures Inv(s)
  {}

  /** Packed sub-slots never overlap each other or anything else in use. */
  lemma PackKeeps(s: Space, s': Space, a: nat, n: nat)
    requires Inv(s) && 0 < n < BLOCK && Packed(s, s', a, n)
    ensures Inv(s')
    ensures Apart(Range(a, n), s.used) && Range(a, n) <= s'.owned && a > 0
  {
    if s.base != 0 && s.filled + n <= BLOCK {
      SameParts(s, s');
    } else {
      hide Inv;
      var m :| Allocated(s, m, Live, a, BLOCK) && s' == m.(base := a, filled := n, used := s.used + Range(a, n));
      PackOpen(s, m, a, n);
    }
  }

  // ---------------------------------------------------------------- runs

  /** One allocator operation, as its caller may invoke it. */
  ghost predicate Next(s: Space, s': Space) {
    || (exists region, a, n :: n > 0 && Allocated(s, s', region, a, n))
    || (exists a, n :: 0 < n < BLOCK && Packed(s, s', a, n))
    || (exists region, a, n :: n > 0 && Freed(s, s', region, a, n))
    || (exists a :: Retirable(s, a, PAIR) && NodeRetired(s, s', a))
    || (exists a, n :: Retirable(s, a, n) && s' == s.(data := s.data + Range(a, n)))
    || (exists ref :: Publishable(s, ref) && Published(s, s', ref))
    || (exists a, n :: Notable(s, a, n) && s' == s.(pend := s.pend + Range(a, n)))
    || (exists gone :: s' == s.(ok := s.ok - gone))
    || s' == Aborted(s)
    || s' == Begun(s)
  }

  /** A free noted for discard happens after the publish that dropped its last reference. */
  ghost predicate Notable(s: Space, a: nat, n: nat) { Apart(Range(a, n), s.owned) && Apart(Range(a, n), s.active) }

  lemma NextKeeps(s: Space, s': Space)
    requires Inv(s) && Next(s, s')
    ensures Inv(s')
  {
    hide Parts, Deferral, Packing, Discards, Allocated, Packed, Freed, NodeRetired, Published;
    if region, a, n :| n > 0 && Allocated(s, s', region, a, n) { AllocKeeps(s, s', region, a, n); }
    else if a, n :| 0 < n < BLOCK && Packed(s, s', a, n) { PackKeeps(s, s', a, n); }
    else if region, a, n :| n > 0 && Freed(s, s', region, a, n) { FreeKeeps(s, s', region, a, n); }
    else if a :| Retirable(s, a, PAIR) && NodeRetired(s, s', a) { RetireKeeps(s, s', a); }
    else if a, n :| Retirable(s, a, n) && s' == s.(data := s.data + Range(a, n)) { RetireBlockKeeps(s, a, n); }
    else if ref :| Publishable(s, ref) && Published(s, s', ref) { PublishKeeps(s, s', ref); }
    else { QuietKeeps(s, s'); }
  }

  lemma QuietKeeps(s: Space, s': Space)
    requires Inv(s)
    requires (exists a, n :: Notable(s, a, n) && s' == s.(pend := s.pend + Range(a, n))) ||
             (exists gone :: s' == s.(ok := s.ok - gone)) || s' == Aborted(s) || s' == Begun(s)
    ensures Inv(s')
  {
    hide Parts;
    assert Parts(s') by { assert Parts(s); SameParts(s, s'); }
  }

  lemma SameParts(s: Space, s': Space)
    requires Parts(s)
    requires s' == s.(nodes := s'.nodes, data := s'.data, pend := s'.pend, ok := s'.ok, floor := s'.floor,
                      base := s'.base, filled := s'.filled, used := s'.used)
    ensures Parts(s')
  {}

  ghost predicate IsRun(run: seq<Space>) {
    run != [] && Inv(run[0]) && forall i :: 0 < i < |run| ==> Next(run[i - 1], run[i])
  }

  /** Conservation, deferral, packing and the two-slot discard rule hold in every state of every run. */
  lemma {:induction false} RunKeeps(run: seq<Space>, i: nat)
    requires IsRun(run) && i < |run|
    ensures Inv(run[i])
  {
    if i > 0 {
      RunKeeps(run, i - 1);
      NextKeeps(run[i - 1], run[i]);
    }
  }

  /** Everything on the device but the free window. */
  ghost function Outside(lo: nat, hi: nat, frontier: nat, cap: nat): Bytes
    requires lo <= frontier <= cap <= hi
  {
    Range(lo, frontier - lo) + Range(cap, hi - cap)
  }

  /** The extents a trim request asks for. */
  predicate Wanted(e: Ext, start: nat, wend: Option<nat>, minlen: nat) {
    e.End() > start && (wend.Some? ==> e.addr < wend.value) && e.len >= minlen
  }

  function Total(l: seq<Ext>): nat { if l == [] then 0 else Total(l[..|l| - 1]) + l[|l| - 1].len }

  lemma NothingCovered()
    ensures Cover([]) == iset{} && Canonical([])
  {}

  lemma HandOver(l: seq<Ext>, i: nat, handed: seq<Ext>)
    requires Canonical(l) && i < |l|
    ensures Canonical(l[..i] + l[i + 1..])
    ensures Cover(l[..i] + l[i + 1..]) == Cover(l) - Range(l[i].addr, l[i].len)
    ensures Cover(handed + [l[i]]) == Cover(handed) + Range(l[i].addr, l[i].len)
    ensures Range(l[i].addr, l[i].len) <= Cover(l)
  {
    Shrink(l, i, []);
    assert l[..i] + [] + l[i + 1..] == l[..i] + l[i + 1..];
    forall x ensures x in Cover(handed + [l[i]]) <==> x in Cover(handed) || x in Range(l[i].addr, l[i].len)
    {
      if k :| 0 <= k < |handed| && handed[k].Has(x) { assert (handed + [l[i]])[k].Has(x); }
      assert (handed + [l[i]])[|handed|] == l[i];
    }
  }

  class Falloc {
    var frontier: nat
    var cap: nat
    var head: seq<Ext>
    var live: seq<Ext>
    var tail: seq<Ext>
    var floor: Option<nat>
    var deferred: seq<Ext>
    var deferredLive: seq<Ext>
    var discPend: seq<Ext>
    var discOk: seq<Ext>
    var packBase: nat
    var packUsed: nat

    ghost const lo: nat
    ghost const hi: nat
    ghost var owned: Bytes
    ghost var used: Bytes
    ghost var active: Bytes
    ghost var loser: Bytes

    ghost function Abs(): Space
      reads this
    {
      Space(lo, hi, frontier, cap, floor, Cover(head), Cover(live), Cover(tail), Cover(deferred), Cover(deferredLive),
            Cover(discPend), Cover(discOk), packBase, packUsed, owned, used, active, loser)
    }

    ghost predicate Valid()
      reads this
    {
      Lists() && Inv(Abs())
    }

    /** Reopen: the window is reconstructed, every free list starts empty. */
    constructor (frontier: nat, cap: nat, ghost lo: nat, ghost hi: nat, ghost active: Bytes, ghost loser: Bytes)
      requires 0 < lo <= frontier <= cap <= hi
      requires forall x :: x in active ==> lo <= x < frontier
      ensures Valid()
      ensures Abs() == Space(lo, hi, frontier, cap, None, iset{}, iset{}, iset{}, iset{}, iset{}, iset{}, iset{}, 0, 0,
                             Outside(lo, hi, frontier, cap), Outside(lo, hi, frontier, cap), active, loser)
    {
      this.frontier, this.cap, this.lo, this.hi, this.active, this.loser := frontier, cap, lo, hi, active, loser;
      head, live, tail, deferred, deferredLive, discPend, discOk := [], [], [], [], [], [], [];
      floor, packBase, packUsed := None, 0, 0;
      owned, used := Outside(lo, hi, frontier, cap), Outside(lo, hi, frontier, cap);
      new;
      NothingCovered();
    }

    ghost predicate Lists()
      reads this
    {
      && Canonical(head) && Canonical(live) && Canonical(tail)
      && Canonical(deferred) && Canonical(deferredLive) && Canonical(discPend) && Canonical(discOk)
    }

    /** Allocated space is live again: it leaves both discard sets. */
    method Undiscard(addr: nat, need: nat)
      requires Lists() && need > 0
      modifies this`discPend, this`discOk, this`owned, this`used
      ensures Lists() && Abs() == Hand(old(Abs()), Range(addr, need))
    {
      hide Cover, Range, Canonical;
      discPend := RemoveRange(discPend, addr, need);
      discOk := RemoveRange(discOk, addr, need);
      owned, used := owned + Range(addr, need), used + Range(addr, need);
    }

    /** Forward allocation: first fit, else bump the frontier.  Zero means out of space. */
    method Alloc(len: nat, region: Region) returns (addr: nat)
      requires Valid() && !region.Tail?
      modifies this
      ensures Valid()
      ensures addr == 0 ==> Abs() == old(Abs())
      ensures var l := if region.Head? then old(head) else old(live);
              addr == 0 <==> old(frontier) + RoundUp(len) > old(cap) && !Fits(l, RoundUp(len))
      ensures addr != 0 ==> Allocated(old(Abs()), Abs(), region, addr, RoundUp(len))
      ensures var l := if region.Head? then old(head) else old(live);
              Fits(l, RoundUp(len)) ==> FirstFit(l, RoundUp(len), addr)
    {
      hide Inv, Cover, Range, Canonical, Fits, FirstFit, RoundUp;
      var need := RoundUp(len);
      var found, a, rest := Take(if region.Head? then head else live, need);
      if !found {
        if frontier + need > cap { return 0; }
        addr := frontier;
        frontier := frontier + need;
      } else {
        addr := a;
        if region.Head? { head := rest; } else { live := rest; }
      }
      Undiscard(addr, need);
      AllocKeeps(old(Abs()), Abs(), region, addr, need);
    }

    /** Eviction-tail allocation: first fit, else the tail grows downward. */
    method AllocTail(len: nat) returns (addr: nat)
      requires Valid()
      modifies this
      ensures Valid()
      ensures addr == 0 ==> Abs() == old(Abs())
      ensures addr == 0 <==> old(cap - frontier) < RoundUp(len) && !Fits(old(tail), RoundUp(len))
      ensures addr != 0 ==> Allocated(old(Abs()), Abs(), Tail, addr, RoundUp(len))
      ensures Fits(old(tail), RoundUp(len)) ==> FirstFit(old(tail), RoundUp(len), addr)
    {
      hide Inv, Cover, Range, Canonical, Fits, FirstFit, RoundUp;
      var need := RoundUp(len);
      var found, a, rest := Take(tail, need);
      if !found {
        if cap < need || cap - need < frontier { return 0; }
        cap := cap - need;
        addr := cap;
      } else {
        addr := a;
        tail := rest;
      }
      Undiscard(addr, need);
      AllocKeeps(old(Abs()), Abs(), Tail, addr, need);
    }

    /** Bump a sub-slot out of the open block, opening a fresh one when it does not fit. */
    method AllocPacked(len: nat) returns (addr: nat)
      requires Valid() && 0 < len < BLOCK
      modifies this
      ensures Valid()
      ensures addr == 0 ==> Abs() == old(Abs())
      ensures addr != 0 ==> Packed(old(Abs()), Abs(), addr, len)
      ensures old(packBase != 0 && packUsed + len <= 4096) ==> addr == old(packBase + packUsed)
      ensures !old(packBase != 0 && packUsed + len <= 4096) ==>
                (addr == 0 <==> old(frontier) + 4096 > old(cap) && !Fits(old(live), 4096))
                && (Fits(old(live), 4096) ==> FirstFit(old(live), 4096, addr))
    {
      hide Inv, Cover, Range, Canonical, Allocated, Fits, FirstFit;
      ghost var s := Abs();
      if packBase != 0 && packUsed + len <= BLOCK {
        addr := packBase + packUsed;
        packUsed := packUsed + len;
      } else {
        var blk := Alloc(BLOCK, Live);
        if blk == 0 { return 0; }
        addr, packBase, packUsed := blk, blk, len;
      }
      used := s.used + Range(addr, len);
      PackKeeps(s, Abs(), addr, len);
    }

    /** Lowest address that fits, without taking it. */
    method Peek(len: nat, region: Region) returns (addr: nat)
      requires Valid()
      ensures var l := match region case Head => head case Live => live case Tail => tail;
              if Fits(l, RoundUp(len)) then FirstFit(l, RoundUp(len), addr) else addr == 0
    {
      var l := match region case Head => head case Live => live case Tail => tail;
      for i := 0 to |l|
        invariant forall j :: 0 <= j < i ==> l[j].len < RoundUp(len)
      {
        if l[i].len >= RoundUp(len) { return l[i].addr; }
      }
      return 0;
    }

    method CloseIfFreed(addr: nat, len: nat)
      modifies this`packBase, this`packUsed
      ensures Abs() == Close(old(Abs()), addr, len)
    {
      if packBase != 0 && addr < packBase + BLOCK && addr + len > packBase { packBase, packUsed := 0, 0; }
    }

    /** Return a block to its region; the caller owns it and no published root needs it. */
    method Free(addr: nat, len: nat, region: Region)
      requires Valid()
      requires Range(addr, RoundUp(len)) <= owned
      requires Apart(Range(addr, RoundUp(len)), Abs().nodes) && Apart(Range(addr, RoundUp(len)), Abs().data)
      requires Apart(Range(addr, RoundUp(len)), active)
      requires if region.Tail? then addr >= cap else addr + RoundUp(len) <= frontier
      modifies this
      ensures Valid() && Freed(old(Abs()), Abs(), region, addr, RoundUp(len))
    {
      hide Inv, Cover, Range, Canonical, Apart, RoundUp;
      var n := RoundUp(len);
      CloseIfFreed(addr, n);
      match region {
        case Head => head := Insert(head, addr, n);
        case Live => live := Insert(live, addr, n);
        case Tail => tail := Insert(tail, addr, n);
      }
      owned, used := owned - Range(addr, n), used - Range(addr, n);
      FreeKeeps(old(Abs()), Abs(), region, addr, n);
    }

    /** Opens the reclaim scope at the current frontier. */
    method Begin()
      requires Valid()
      modifies this`floor
      ensures Valid() && Abs() == Begun(old(Abs()))
    {
      if floor.None? || frontier < floor.value { floor := Some(frontier); }
    }

    /** A superseded trie node pair. */
    method RetireNode(addr: nat)
      requires Valid() && Retirable(Abs(), addr, PAIR)
      modifies this
      ensures Valid() && NodeRetired(old(Abs()), Abs(), addr)
    {
      hide Inv, Cover, Canonical;
      if floor.None? { return; }
      if addr >= floor.value {
        AboveFloor(Abs(), addr);
        CloseIfFreed(addr, PAIR);
        head := Insert(head, addr, PAIR);
        owned, used := owned - Range(addr, PAIR), used - Range(addr, PAIR);
      } else {
        deferred := Insert(deferred, addr, PAIR);
      }
      RetireKeeps(old(Abs()), Abs(), addr);
    }

    /** A superseded content block always waits for the flip. */
    method RetireBlock(addr: nat, len: nat)
      requires Valid() && Retirable(Abs(), addr, RoundUp(len))
      modifies this
      ensures Valid() && Abs() == old(Abs()).(data := old(Abs()).data + Range(addr, RoundUp(len)))
    {
      hide Inv, Cover, Canonical, Range, RoundUp;
      deferredLive := Insert(deferredLive, addr, RoundUp(len));
      RetireBlockKeeps(old(Abs()), addr, RoundUp(len));
    }

    method CloseIfAny(l: seq<Ext>)
      requires Canonical(l)
      modifies this`packBase, this`packUsed
      ensures Abs() == old(Abs()).(base := packBase, filled := packUsed) && Parting(old(Abs()), Abs(), Cover(l))
    {
      for i := 0 to |l|
        invariant if forall j :: 0 <= j < i ==> Clear(old(packBase), l[j]) then
            packBase == old(packBase) && packUsed == old(packUsed) else packBase == 0 && packUsed == 0
      {
        CloseIfFreed(l[i].addr, l[i].len);
      }
      ClearApart(old(packBase), l);
    }

    method CloseParked()
      requires Lists()
      modifies this`packBase, this`packUsed
      ensures Lists() && Abs() == old(Abs()).(base := packBase, filled := packUsed)
      ensures Parting(old(Abs()), Abs(), Abs().nodes + Abs().data)
    {
      hide Cover, Canonical;
      CloseIfAny(deferred);
      CloseIfAny(deferredLive);
    }

    /** Candidates noted before this publish become discardable; what it releases becomes a candidate. */
    method AgeDiscards()
      requires Lists()
      modifies this`discPend, this`discOk
      ensures Lists()
      ensures Abs() == old(Abs()).(ok := old(Abs()).ok + old(Abs()).pend, pend := old(Abs()).nodes + old(Abs()).data)
    {
      hide Cover, Canonical;
      discOk := InsertAll(discOk, discPend);
      discPend := InsertAll(deferred, deferredLive);
    }

    method ReleaseDeferred()
      requires Lists()
      modifies this`head, this`live
      ensures Lists()
      ensures Abs() == old(Abs()).(head := old(Abs()).head + old(Abs()).nodes, live := old(Abs()).live
          + old(Abs()).data)
    {
      hide Cover, Canonical;
      head := InsertAll(head, deferred);
      live := InsertAll(live, deferredLive);
    }

    /** Releases what was deferred and ages the discard candidates. */
    method Publish(ghost ref: Bytes)
      requires Valid() && Publishable(Abs(), ref)
      modifies this
      ensures Valid() && Published(old(Abs()), Abs(), ref)
    {
      hide Inv, Cover, Canonical, Range, Publishable, Apart;
      ghost var s := Abs();
      AgeDiscards();
      CloseParked();
      ReleaseDeferred();
      deferred, deferredLive, floor := [], [], None;
      NothingCovered();
      owned, used := owned - (s.nodes + s.data), used - (s.nodes + s.data);
      loser, active := active, ref;
      assert Published(s, Abs(), ref);
      PublishKeeps(s, Abs(), ref);
    }

    /** A failed commit: the old root stays live, so nothing deferred is released. */
    method Abort()
      requires Valid()
      modifies this`deferred, this`deferredLive, this`floor
      ensures Valid() && Abs() == Aborted(old(Abs()))
    {
      hide Inv;
      deferred, deferredLive, floor := [], [], None;
      NothingCovered();
      QuietKeeps(old(Abs()), Abs());
    }

    method NoteFreed(addr: nat, len: nat)
      requires Valid() && Notable(Abs(), addr, RoundUp(len))
      modifies this`discPend
      ensures Valid() && Abs() == old(Abs()).(pend := old(Abs()).pend + Range(addr, RoundUp(len)))
    {
      hide Inv, Cover, Canonical, Range, RoundUp;
      discPend := Insert(discPend, addr, RoundUp(len));
      QuietKeeps(old(Abs()), Abs());
    }

    /**
     Hands the aged extents inside the window to the discard callback, which here
     succeeds `limit` times and then fails; each is dropped only after success.
     */
    method TakeDiscardable(start: nat, wend: Option<nat>, minlen: nat, limit: nat)
      returns (done: bool, handed: seq<Ext>, bytes: nat)
      requires Valid()
      modifies this`discOk
      ensures Valid() && Canonical(handed) && Cover(handed) <= old(Abs()).ok
      ensures Abs() == old(Abs()).(ok := old(Abs()).ok - Cover(handed))
      ensures bytes == Total(handed)
      ensures forall i :: 0 <= i < |handed| ==> Wanted(handed[i], start, wend, minlen)
      ensures done ==> forall i :: 0 <= i < |discOk| ==> !Wanted(discOk[i], start, wend, minlen)
      ensures !done ==> |handed| == limit
    {
      hide Inv, Cover, Range, Wanted;
      var i := 0;
      done, handed, bytes := true, [], 0;
      ghost var ok := Cover(discOk);
      NothingCovered();
      while i < |discOk|
        invariant 0 <= i <= |discOk| && Canonical(discOk) && Canonical(handed) && |handed| <= limit
        invariant Cover(handed) <= ok && Cover(discOk) == ok - Cover(handed)
        invariant done && bytes == Total(handed)
        invariant forall k :: 0 <= k < |handed| ==> Wanted(handed[k], start, wend, minlen)
        invariant forall k :: 0 <= k < i ==> !Wanted(discOk[k], start, wend, minlen)
        invariant forall k, j :: 0 <= k < |handed| && i <= j < |discOk| ==> handed[k].End() < discOk[j].addr
        decreases |discOk| - i
      {
        var e := discOk[i];
        if !Wanted(e, start, wend, minlen) {
          i := i + 1;
        } else {
          if |handed| == limit {
            done := false;
            break;
          }
          HandOver(discOk, i, handed);
          assert handed == (handed + [e])[..|handed|];
          handed, bytes := handed + [e], bytes + e.len;
          discOk := discOk[..i] + discOk[i + 1..];
        }
      }
      QuietKeeps(old(Abs()), Abs());
    }
  }
}
