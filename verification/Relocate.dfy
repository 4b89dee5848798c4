/**
 Compaction of one unit and of a whole pass (kernel/sfs_defrag.c:265-454 and
 531-537): fragments move to strictly lower first fits, the record is rewritten
 and the id catalog repointed; the old extents wait for the header flip.
 */
module Relocate {
  import opened Base
  import opened Extents
  import opened Defrag
  import F = Falloc

  type Disk = map<int, Byte>

  function ByteAt(d: Disk, x: int): Option<Byte> { if x in d then Some(d[x]) else None }

  function Bytes(d: Disk, a: nat, n: nat): seq<Option<Byte>> { seq(n, i => ByteAt(d, a + i)) }

  /** The stored ciphertext of a fragment, to the end of its slot or its last block; a hole stores nothing. */
  function Frag(d: Disk, l: Loc): seq<Option<Byte>> { if l.Hole() then [] else Bytes(d, l.addr, Footprint(l)) }

  function Nth(b: seq<Byte>, a: nat, x: int): Byte
    requires a <= x < a + |b|
  {
    b[x - a]
  }

  function WriteAt(d: Disk, a: nat, b: seq<Byte>): Disk { d + map x | a <= x < a + |b| :: Nth(b, a, x) }

  /** One block, if all of it can be read. */
  function ReadBlock(d: Disk, at: nat): (r: Option<seq<Byte>>)
    ensures r.Some? <==> forall x | at <= x < at + BLOCK :: x in d
    ensures r.Some? ==> |r.value| == BLOCK && forall i | 0 <= i < BLOCK :: ByteAt(d, at + i) == Some(r.value[i])
  {
    if forall x | at <= x < at + BLOCK :: x in d then Some(seq(BLOCK, i requires 0 <= i < BLOCK => d[at + i])) else None
  }

  ghost predicate SameOn(d: Disk, d': Disk, r: F.Bytes) { forall x | x in r :: ByteAt(d, x) == ByteAt(d', x) }

  lemma SameBytes(d: Disk, d': Disk, r: F.Bytes, a: nat, n: nat)
    requires SameOn(d, d', r) && Range(a, n) <= r
    ensures Bytes(d, a, n) == Bytes(d', a, n)
  {
    forall i | 0 <= i < n ensures Bytes(d, a, n)[i] == Bytes(d', a, n)[i] { assert a + i in Range(a, n); }
  }

  lemma WriteElsewhere(d: Disk, a: nat, b: seq<Byte>, r: F.Bytes)
    requires F.Apart(Range(a, |b|), r)
    ensures SameOn(d, WriteAt(d, a, b), r)
  {
    forall x | x in r ensures ByteAt(d, x) == ByteAt(WriteAt(d, a, b), x) { assert x !in Range(a, |b|); }
  }

  // ---------------------------------------------------------------- who uses which byte

  /** A packed fragment uses its slot, any other its whole blocks. */
  function Footprint(l: Loc): nat { if l.len < BLOCK then l.len else F.RoundUp(l.len) }

  ghost predicate LocHas(l: Loc, x: int) { !l.Hole() && Ext(l.addr, Footprint(l)).Has(x) }

  ghost predicate LocsHave(s: Option<seq<Loc>>, x: int) {
    s.Some? && exists i :: 0 <= i < |s.value| && LocHas(s.value[i], x)
  }

  ghost predicate HeadHas(u: Unit, head: nat, over: nat, x: int) { Ext(head, Envelope(u, over)).Has(x) }

  ghost predicate UnitHas(u: Unit, head: nat, over: nat, x: int) {
    HeadHas(u, head, over, x) || LocsHave(u.content, x) || LocsHave(u.meta, x)
  }

  ghost predicate Disjoint(l: seq<Loc>) {
    forall i, j, x | 0 <= i < j < |l| && LocHas(l[i], x) :: !LocHas(l[j], x)
  }

  /** No two parts of a unit share a byte. */
  ghost predicate WellLaid(u: Unit, head: nat, over: nat) {
    && (u.content.Some? ==> Disjoint(u.content.value))
    && (forall x | LocsHave(u.content, x) :: !HeadHas(u, head, over, x) && !LocsHave(u.meta, x))
    && (forall x | LocsHave(u.meta, x) :: !HeadHas(u, head, over, x))
  }

  predicate Known(recs: Store, ids: map<nat, nat>, k: nat) { k in ids && ids[k] in recs }

  ghost predicate Holds(recs: Store, ids: map<nat, nat>, over: nat, k: nat, x: int)
    requires Known(recs, ids, k)
  {
    UnitHas(recs[ids[k]], ids[k], over, x)
  }

  /** Units own what they use, share nothing with each other, and use nothing that waits to be freed. */
  ghost predicate Laid(recs: Store, ids: map<nat, nat>, over: nat, owned: F.Bytes, frees: seq<Ext>) {
    && (forall k | Known(recs, ids, k) :: WellLaid(recs[ids[k]], ids[k], over))
    && (forall k, x | Known(recs, ids, k) && Holds(recs, ids, over, k, x) :: x in owned && !Covers(frees, x))
    && (forall k, m, x | Known(recs, ids, k) && Known(recs, ids, m) && k != m && Holds(recs, ids, over, k, x) ::
        !Holds(recs, ids, over, m, x))
    && (forall x | Covers(frees, x) :: x in owned)
    && (forall k | k in ids :: ids[k] in recs || ids[k] == 0)
  }

  lemma CoversBoth(a: seq<Ext>, b: seq<Ext>, x: int)
    ensures Covers(a + b, x) <==> Covers(a, x) || Covers(b, x)
  {
    var r := a + b;
    if i :| 0 <= i < |a| && a[i].Has(x) { assert r[i].Has(x); }
    if i :| 0 <= i < |b| && b[i].Has(x) { assert r[|a| + i].Has(x); }
    if i :| 0 <= i < |r| && r[i].Has(x) { assert if i < |a| then a[i].Has(x) else b[i - |a|].Has(x); }
  }

  /** What a unit's successor may use: fresh bytes, or old bytes of the same unit that are not given up. */
  ghost predicate Succeeds(u: Unit, head: nat, u': Unit, new_: nat, over: nat, owned: F.Bytes, owned': F.Bytes,
      gone: seq<Ext>) {
    && (forall x | UnitHas(u', new_, over, x) ::
        x in owned' && (x in owned ==> UnitHas(u, head, over, x) && !Covers(gone, x)))
    && (forall x | Covers(gone, x) :: UnitHas(u, head, over, x))
    && HeadHas(u', new_, over, new_) && new_ != 0 && new_ !in owned
  }

  lemma HeadOf(recs: Store, ids: map<nat, nat>, over: nat, k: nat)
    requires Known(recs, ids, k)
    ensures Holds(recs, ids, over, k, ids[k])
  {}

  /** Repointing one unit keeps the layout sound for all. */
  lemma RepointLaid(recs: Store, ids: map<nat, nat>, over: nat, owned: F.Bytes, frees: seq<Ext>, k: nat, new_: nat,
      u': Unit,
                    owned': F.Bytes, gone: seq<Ext>)
    requires Laid(recs, ids, over, owned, frees) && Known(recs, ids, k) && owned <= owned'
    requires Succeeds(recs[ids[k]], ids[k], u', new_, over, owned, owned', gone) && WellLaid(u', new_, over)
    ensures Laid(recs[new_ := u'], ids[k := new_], over, owned', frees + gone)
  {
    hide UnitHas, WellLaid, Covers, HeadHas;
    var recs', ids' := recs[new_ := u'], ids[k := new_];
    forall m: nat | Known(recs', ids', m) && m != k ensures Known(recs, ids, m) && recs'[ids'[m]] == recs[ids[m]]
        && ids'[m] == ids[m]
    {
      if Known(recs, ids, m) { HeadOf(recs, ids, over, m); }
    }
    assert recs'[ids'[k]] == u';
    forall x | Covers(gone, x) ensures Holds(recs, ids, over, k, x) {}
    forall x ensures Covers(frees + gone, x) <==> Covers(frees, x) || Covers(gone, x) { CoversBoth(frees, gone, x); }
    forall m: nat, x | Known(recs', ids', m) && Holds(recs', ids', over, m, x) ensures x in owned'
        && !Covers(frees + gone, x)
    {
      if m != k { assert Holds(recs, ids, over, m, x); }
      else { assert x in owned ==> Holds(recs, ids, over, k, x); }
    }
    forall a: nat, b: nat, x | Known(recs', ids', a) && Known(recs', ids', b) && a != b
        && Holds(recs', ids', over, a, x)
      ensures !Holds(recs', ids', over, b, x)
    {
      assert a != k ==> Holds(recs, ids, over, a, x) && x in owned;
      assert a == k ==> x in owned ==> Holds(recs, ids, over, k, x);
    }
    forall x | Covers(frees + gone, x) ensures x in owned' {}
  }

  // ---------------------------------------------------------------- the block grid

  /** Both nodes of every catalog node pair. */
  ghost predicate NodesHave(nodes: seq<nat>, x: int) { exists i :: 0 <= i < |nodes| && Ext(nodes[i], F.PAIR).Has(x) }

  /** Whole blocks only. */
  ghost predicate Blocked(r: F.Bytes) { forall x: nat, y: nat | x in r && SameBlock(x, y) :: y in r }

  /** Free lists, frontier and catalog nodes lie on the block grid; the nodes are allocated below the frontier. */
  ghost predicate Sited(s: F.Space, nodes: seq<nat>) {
    && Blocked(s.head) && Blocked(s.live) && Blocked(s.tail) && s.frontier % BLOCK == 0
    && (forall i | 0 <= i < |nodes| :: nodes[i] % BLOCK == 0)
    && (forall x | NodesHave(nodes, x) :: x in s.owned && x < s.frontier)
  }

  /** What is handed out below the frontier for records and content. */
  ghost function Ours(s: F.Space, nodes: seq<nat>): F.Bytes {
    iset x | x in s.owned && x < s.frontier && !NodesHave(nodes, x)
  }

  /** Deferred frees and the published root are as they were. */
  ghost predicate Calm(s: F.Space, s': F.Space) {
    s'.lo == s.lo && s'.cap == s.cap && s'.nodes == s.nodes && s'.data == s.data && s'.active == s.active
  }

  /** ... and nothing was given back. */
  ghost predicate Kept(s: F.Space, s': F.Space) { Calm(s, s') && s.owned <= s'.owned && s.frontier <= s'.frontier }

  lemma OursGrows(s: F.Space, s': F.Space, nodes: seq<nat>)
    requires Kept(s, s')
    ensures Ours(s, nodes) <= Ours(s', nodes)
  {
    hide NodesHave;
  }

  lemma BlockedChange(r: F.Bytes, a: nat, n: nat)
    requires Blocked(r) && a % BLOCK == 0 && n % BLOCK == 0
    ensures Blocked(r - Range(a, n)) && Blocked(r + Range(a, n))
  {
    forall x: nat, y: nat | SameBlock(x, y) ensures x in Range(a, n) <==> y in Range(a, n) {}
  }

  lemma StartUncovered(l: seq<Ext>, k: nat)
    requires Extents.Canonical(l) && k < |l|
    ensures !Covers(l, l[k].addr - 1)
  {}

  /** A canonical list of whole blocks has whole-block extents. */
  lemma CanonicalEven(l: seq<Ext>, k: nat)
    requires Extents.Canonical(l) && Blocked(Cover(l)) && k < |l|
    ensures Even(l[k])
  {
    StartUncovered(l, k);
    EndUncovered(l, k);
    var a, e := l[k].addr, l[k].End();
    CoversAt(l, k, a);
    CoversAt(l, k, e - 1);
    assert a > 0 ==> !SameBlock(a, a - 1);
    assert !SameBlock(e - 1, e);
  }

  lemma FitOnGrid(s: F.Space, s': F.Space, l: seq<Ext>, a: nat, n: nat)
    requires F.Parts(s) && Extents.Canonical(l) && s.live == Cover(l) && Blocked(s.live) && s.frontier % BLOCK == 0
        && n > 0
    requires F.Allocated(s, s', F.Live, a, n) && (Fits(l, n) ==> FirstFit(l, n, a))
    ensures a % BLOCK == 0 && s'.live == if Range(a, n) <= s.live then s.live - Range(a, n) else s.live
    ensures s'.frontier == if Range(a, n) <= s.live then s.frontier else a + n
    ensures s'.head == s.head && s'.tail == s.tail
  {
    assert a in Range(a, n);
    if Range(a, n) <= s.live {
      var k := InOneExtent(l, a, n);
      assert l[k].len >= n;
      var i :| 0 <= i < |l| && a == l[i].addr;
      CanonicalEven(l, i);
    }
  }

  // ---------------------------------------------------------------- moving fragments

  /** A fragment stays, or moves strictly down keeping its length; holes and packed slots always stay. */
  predicate Lower(l: Loc, l': Loc) { l' == l || (0 < l'.addr < l.addr && l'.len == l.len >= BLOCK) }

  /** The old extents of the fragments that moved. */
  function Vacated(l: seq<Loc>, r: seq<Loc>): seq<Ext>
    requires |l| == |r|
    decreases |l|
  {
    if l == [] then []
    else
      var n := |l| - 1;
      Vacated(l[..n], r[..n]) + if r[n] == l[n] then [] else [Ext(l[n].addr, F.RoundUp(l[n].len))]
  }

  /** Nothing lower would hold the fragment. */
  ghost predicate Settled(free: seq<Ext>, l: Loc) {
    l.Hole() || l.len < BLOCK || forall a: nat | FirstFit(free, F.RoundUp(l.len), a) :: a >= l.addr
  }

  ghost predicate InOwned(l: Loc, owned: F.Bytes) { forall x | LocHas(l, x) :: x in owned }

  /** How a relocated fragment relates to the original: same bytes, owned, and on fresh space if it moved. */
  ghost predicate Carried(d: Disk, l: Loc, owned: F.Bytes, d': Disk, l': Loc, owned': F.Bytes) {
    && Lower(l, l') && Frag(d', l') == Frag(d, l) && InOwned(l', owned')
    && (l' != l ==> forall x | LocHas(l', x) :: x !in owned)
  }

  lemma FirstFitUnique(l: seq<Ext>, need: nat, a: nat, b: nat)
    requires FirstFit(l, need, a) && FirstFit(l, need, b)
    ensures a == b
  {}

  /** A covered run lies inside one extent of a canonical list. */
  lemma InOneExtent(l: seq<Ext>, a: nat, n: nat) returns (k: nat)
    requires Extents.Canonical(l) && n > 0 && Range(a, n) <= Cover(l)
    ensures k < |l| && l[k].addr <= a && a + n <= l[k].End()
  {
    assert a in Range(a, n);
    k :| 0 <= k < |l| && l[k].Has(a);
    EndUncovered(l, k);
    assert l[k].End() !in Cover(l);
  }

  lemma EndUncovered(l: seq<Ext>, k: nat)
    requires Extents.Canonical(l) && k < |l|
    ensures !Covers(l, l[k].End())
  {}

  lemma LowestFit(l: seq<Ext>, need: nat, k: nat) returns (i: nat)
    requires k < |l| && l[k].len >= need
    ensures i <= k && FirstFit(l, need, l[i].addr)
    decreases k
  {
    if j :| 0 <= j < k && l[j].len >= need { i := LowestFit(l, need, j); } else { i := k; }
  }

  /** A shrinking free list never brings a lower fit. */
  lemma FitShrinks(l: seq<Ext>, l': seq<Ext>, need: nat, a': nat) returns (a: nat)
    requires Extents.Canonical(l) && need > 0 && Cover(l') <= Cover(l) && FirstFit(l', need, a')
    ensures FirstFit(l, need, a) && a <= a'
  {
    var i :| 0 <= i < |l'| && a' == l'[i].addr && l'[i].len >= need;
    forall x | x in Range(a', need) ensures x in Cover(l) { CoversAt(l', i, x); }
    var k := InOneExtent(l, a', need);
    var j := LowestFit(l, need, k);
    a := l[j].addr;
  }

  lemma StillSettled(l: seq<Ext>, l': seq<Ext>, loc: Loc)
    requires Extents.Canonical(l) && Cover(l') <= Cover(l) && Settled(l, loc)
    ensures Settled(l', loc)
  {
    hide FirstFit, Extents.Canonical, Cover;
    if !loc.Hole() && loc.len >= BLOCK {
      forall b: nat | FirstFit(l', F.RoundUp(loc.len), b) ensures b >= loc.addr {
        var a := FitShrinks(l, l', F.RoundUp(loc.len), b);
      }
    }
  }

  /** What was moved to the first fit has no lower fit left. */
  lemma MovedSettles(l: seq<Ext>, l': seq<Ext>, loc: Loc)
    requires Extents.Canonical(l) && Cover(l') <= Cover(l) && FirstFit(l, F.RoundUp(loc.len), loc.addr)
    ensures Settled(l', loc)
  {
    hide FirstFit, Extents.Canonical, Cover;
    forall b: nat | FirstFit(l', F.RoundUp(loc.len), b) ensures b >= loc.addr {
      var a := FitShrinks(l, l', F.RoundUp(loc.len), b);
      FirstFitUnique(l, F.RoundUp(loc.len), a, loc.addr);
    }
  }

  lemma AllSettled(l: seq<Ext>, l': seq<Ext>, locs: seq<Loc>)
    requires Extents.Canonical(l) && Cover(l') <= Cover(l) && forall j | 0 <= j < |locs| :: Settled(l, locs[j])
    ensures forall j | 0 <= j < |locs| :: Settled(l', locs[j])
  {
    hide Extents.Canonical, Settled, Cover;
    forall j | 0 <= j < |locs| ensures Settled(l', locs[j]) { StillSettled(l, l', locs[j]); }
  }

  lemma FitsAboveZero(s: F.Space, l: seq<Ext>, need: nat, a: nat)
    requires F.Parts(s) && s.live == Cover(l) && FirstFit(l, need, a) && need > 0
    ensures a > 0 && Fits(l, need)
  {
    var i :| 0 <= i < |l| && a == l[i].addr && l[i].len >= need && forall j :: 0 <= j < i ==> l[j].len < need;
    CoversAt(l, i, a);
  }

  lemma FragSame(d: Disk, d': Disk, r: F.Bytes, l: Loc)
    requires SameOn(d, d', r) && InOwned(l, r)
    ensures Frag(d, l) == Frag(d', l)
  {
    if !l.Hole() {
      forall x | x in Range(l.addr, Footprint(l)) ensures x in r { assert LocHas(l, x); }
      SameBytes(d, d', r, l.addr, Footprint(l));
    }
  }

  /** A carried fragment stays carried while writes land on space nobody owned. */
  lemma CarriedOn(d: Disk, l: Loc, owned: F.Bytes, d1: Disk, l': Loc, owned1: F.Bytes, d2: Disk, owned2: F.Bytes)
    requires Carried(d, l, owned, d1, l', owned1) && SameOn(d1, d2, owned1) && owned1 <= owned2
    ensures Carried(d, l, owned, d2, l', owned2)
  {
    FragSame(d1, d2, owned1, l');
  }

  /** The state of a pass over one unit's fragments, after the first i. */
  ghost predicate Moving(d: Disk, locs: seq<Loc>, owned: F.Bytes, d': Disk, r: seq<Loc>, owned': F.Bytes, i: nat) {
    && i == |r| <= |locs| && owned <= owned' && SameOn(d, d', owned)
    && (forall j | 0 <= j < |locs| :: InOwned(locs[j], owned))
    && (forall j | 0 <= j < i :: Carried(d, locs[j], owned, d', r[j], owned'))
    && Disjoint(locs) && Disjoint(r)
  }

  lemma DisjointPush(r: seq<Loc>, l: Loc)
    requires Disjoint(r) && forall j, x | 0 <= j < |r| && LocHas(r[j], x) :: !LocHas(l, x)
    ensures Disjoint(r + [l])
  {
    hide LocHas;
    var s := r + [l];
    forall i, j, x | 0 <= i < j < |s| && LocHas(s[i], x) ensures !LocHas(s[j], x) { assert s[i] == r[i]; }
  }

  lemma KeepFragment(d: Disk, locs: seq<Loc>, owned: F.Bytes, d': Disk, r: seq<Loc>, owned': F.Bytes, i: nat)
    requires Moving(d, locs, owned, d', r, owned', i) && i < |locs|
    ensures Moving(d, locs, owned, d', r + [locs[i]], owned', i + 1)
  {
    hide Frag, LocHas;
    FragSame(d, d', owned, locs[i]);
    forall j, x | 0 <= j < i && LocHas(r[j], x) ensures !LocHas(locs[i], x) {
      assert Carried(d, locs[j], owned, d', r[j], owned');
      if r[j] == locs[j] { assert LocHas(locs[j], x); }
    }
    DisjointPush(r, locs[i]);
    forall j | 0 <= j < i + 1 ensures Carried(d, locs[j], owned, d', (r + [locs[i]])[j], owned') {}
  }

  /** The fragment sits on space nobody owned, strictly lower, with the same bytes. */
  ghost predicate Moved(d: Disk, l: Loc, owned: F.Bytes, d': Disk, l': Loc, owned': F.Bytes) {
    && !l.Hole() && 0 < l'.addr < l.addr && l'.len == l.len >= BLOCK
    && Bytes(d', l'.addr, F.RoundUp(l.len)) == Bytes(d, l.addr, F.RoundUp(l.len))
    && owned' == owned + Range(l'.addr, F.RoundUp(l.len)) && F.Apart(Range(l'.addr, F.RoundUp(l.len)), owned)
  }

  lemma MoveFragment(d: Disk, locs: seq<Loc>, owned: F.Bytes, d1: Disk, r: seq<Loc>, owned1: F.Bytes, i: nat, l': Loc,
      d2: Disk,
                     owned2: F.Bytes)
    requires Moving(d, locs, owned, d1, r, owned1, i) && i < |locs| && Moved(d1, locs[i], owned1, d2, l', owned2)
    requires SameOn(d1, d2, owned1)
    ensures Moving(d, locs, owned, d2, r + [l'], owned2, i + 1)
  {
    hide Bytes, F.RoundUp;
    FragSame(d, d1, owned, locs[i]);
    assert Carried(d, locs[i], owned, d2, l', owned2) by {
      forall x | LocHas(l', x) ensures x in owned2 && x !in owned
          { assert x in Range(l'.addr, F.RoundUp(locs[i].len)); }
    }
    forall j, x | 0 <= j < i && LocHas(r[j], x) ensures !LocHas(l', x) {
      assert Carried(d, locs[j], owned, d1, r[j], owned1);
    }
    DisjointPush(r, l');
    forall j | 0 <= j < i + 1 ensures Carried(d, locs[j], owned, d2, (r + [l'])[j], owned2) {
      if j < i { CarriedOn(d, locs[j], owned, d1, r[j], owned1, d2, owned2); }
    }
  }

  lemma MovingStart(d: Disk, locs: seq<Loc>, owned: F.Bytes)
    requires Disjoint(locs) && forall j | 0 <= j < |locs| :: InOwned(locs[j], owned)
    ensures Moving(d, locs, owned, d, [], owned, 0) && Vacated([], []) == []
  {}

  lemma SameSelf(d: Disk, r: F.Bytes)
    ensures SameOn(d, d, r)
  {}

  lemma VacatedGrows(locs: seq<Loc>, r: seq<Loc>, i: nat, l': Loc)
    requires i == |r| < |locs|
    ensures Vacated(locs[..i + 1], r + [l'])
            == Vacated(locs[..i], r) + if l' == locs[i] then [] else [Ext(locs[i].addr, F.RoundUp(locs[i].len))]
  {
    assert locs[..i + 1][..i] == locs[..i] && (r + [l'])[..i] == r;
  }

  lemma FitFacts(s: F.Space, free: seq<Ext>, l: Loc, fit: nat)
    requires F.Inv(s) && s.live == Cover(free)
    requires if Fits(free, F.RoundUp(l.len)) then FirstFit(free, F.RoundUp(l.len), fit) else fit == 0
    ensures fit == 0 || fit >= l.addr ==> Settled(free, l)
    ensures fit != 0 ==> Fits(free, F.RoundUp(l.len))
  {
    forall a: nat | FirstFit(free, F.RoundUp(l.len), a) ensures a > 0 && a == fit {
      FitsAboveZero(s, free, F.RoundUp(l.len), a);
      FirstFitUnique(free, F.RoundUp(l.len), a, fit);
    }
  }

  /** What a live allocation gives: whole blocks on the grid that nobody owned. */
  lemma FreshSpace(s: F.Space, s': F.Space, nodes: seq<nat>, l: seq<Ext>, a: nat, n: nat)
    requires F.Inv(s) && Sited(s, nodes) && Extents.Canonical(l) && s.live == Cover(l) && n > 0 && n % BLOCK == 0
    requires F.Allocated(s, s', F.Live, a, n) && (Fits(l, n) ==> FirstFit(l, n, a))
    ensures F.Apart(Range(a, n), s.owned) && s'.owned == s.owned + Range(a, n) && s'.live <= s.live
    ensures a % BLOCK == 0 && Sited(s', nodes) && Kept(s, s')
    ensures F.Apart(Range(a, n), Ours(s, nodes)) && Ours(s', nodes) == Ours(s, nodes) + Range(a, n)
  {
    F.AllocKeeps(s, s', F.Live, a, n);
    FitOnGrid(s, s', l, a, n);
    hide FirstFit, Fits, Extents.Canonical, Cover, NodesHave, Blocked;
    BlockedChange(s.live, a, n);
    forall x | x in Ours(s', nodes) ensures x in Ours(s, nodes) + Range(a, n) {}
    forall x | x in Ours(s, nodes) + Range(a, n) ensures x in Ours(s', nodes) {}
  }

  lemma CopiedBytes(d: Disk, d': Disk, from: nat, to: nat, len: nat, buf: seq<Byte>)
    requires |buf| >= len && d' == WriteAt(d, to, buf) && forall i | 0 <= i < |buf| ::
        ByteAt(d, from + i) == Some(buf[i])
    ensures Bytes(d', to, len) == Bytes(d, from, len)
  {
    forall i | 0 <= i < len ensures Bytes(d', to, len)[i] == Bytes(d, from, len)[i] {
      assert ByteAt(d, from + i) == Some(buf[i]);
      assert ByteAt(d', to + i) == Some(Nth(buf, to, to + i));
    }
  }

  lemma {:induction false} VacatedCovers(l: seq<Loc>, r: seq<Loc>, x: int)
    requires |l| == |r| && forall j | 0 <= j < |l| :: Lower(l[j], r[j])
    ensures Covers(Vacated(l, r), x) <==> exists j :: 0 <= j < |l| && r[j] != l[j] && LocHas(l[j], x)
    decreases |l|
  {
    if l != [] {
      var n := |l| - 1;
      VacatedCovers(l[..n], r[..n], x);
      var last := if r[n] == l[n] then [] else [Ext(l[n].addr, F.RoundUp(l[n].len))];
      CoversBoth(Vacated(l[..n], r[..n]), last, x);
      assert Lower(l[n], r[n]);
      assert r[n] != l[n] ==> (Covers(last, x) <==> LocHas(l[n], x)) by {
        if r[n] != l[n] { assert last[0] == Ext(l[n].addr, Footprint(l[n])) && !l[n].Hole(); }
      }
      if j :| 0 <= j < |l| && r[j] != l[j] && LocHas(l[j], x)
          { if j < n { assert r[..n][j] != l[..n][j] && LocHas(l[..n][j], x); } }
      if j :| 0 <= j < n && r[..n][j] != l[..n][j] && LocHas(l[..n][j], x) { assert r[j] != l[j] && LocHas(l[j], x); }
    }
  }

  /** Bytes of the relocated content that the allocator already held are bytes of fragments that stayed. */
  lemma StayedBytes(d: Disk, locs: seq<Loc>, owned: F.Bytes, d': Disk, r: seq<Loc>, owned': F.Bytes, x: int)
    requires Moving(d, locs, owned, d', r, owned', |locs|) && LocsHave(Some(r), x)
    ensures x in owned' && (x in owned ==> LocsHave(Some(locs), x) && !Covers(Vacated(locs, r), x))
  {
    hide LocHas, Vacated, Covers;
    var j :| 0 <= j < |r| && LocHas(r[j], x);
    assert Carried(d, locs[j], owned, d', r[j], owned');
    forall m | 0 <= m < |locs| ensures Lower(locs[m], r[m]) { assert Carried(d, locs[m], owned, d', r[m], owned'); }
    VacatedCovers(locs, r, x);
    if x in owned {
      assert LocHas(locs[j], x);
      assert LocsHave(Some(locs), x);
      forall m | 0 <= m < |locs| && r[m] != locs[m] ensures !LocHas(locs[m], x) { assert m < j || j < m; }
    }
  }

  lemma VacatedOld(d: Disk, locs: seq<Loc>, owned: F.Bytes, d': Disk, r: seq<Loc>, owned': F.Bytes, x: int)
    requires Moving(d, locs, owned, d', r, owned', |locs|) && Covers(Vacated(locs, r), x)
    ensures LocsHave(Some(locs), x)
  {
    hide LocHas, Vacated, Covers;
    forall m | 0 <= m < |locs| ensures Lower(locs[m], r[m]) { assert Carried(d, locs[m], owned, d', r[m], owned'); }
    VacatedCovers(locs, r, x);
  }

  /** The rewritten unit is laid out soundly and gives up exactly what moved, plus its old record. */
  lemma SuccessorLaid(d: Disk, u: Unit, head: nat, over: nat, owned: F.Bytes, d': Disk, r: seq<Loc>, owned1: F.Bytes,
      new_: nat,
                      owned2: F.Bytes)
    requires u.content.Some? && Moving(d, u.content.value, owned, d', r, owned1, |u.content.value|)
        && WellLaid(u, head, over)
    requires (forall x | UnitHas(u, head, over, x) :: x in owned) && new_ != 0
    requires F.Apart(Range(new_, Envelope(u, over)), owned1) && owned2 == owned1 + Range(new_, Envelope(u, over))
    ensures var u' := u.(content := Some(r));
            var gone := Vacated(u.content.value, r) + [Ext(head, Envelope(u, over))];
            Succeeds(u, head, u', new_, over, owned, owned2, gone) && WellLaid(u', new_, over)
  {
    hide LocsHave, Covers, Vacated, F.RoundUp;
    var u', locs, head_ := u.(content := Some(r)), u.content.value, Ext(head, Envelope(u, over));
    var gone := Vacated(locs, r) + [head_];
    assert u.content == Some(locs) && owned <= owned1;
    forall x ensures Covers(gone, x) <==> Covers(Vacated(locs, r), x) || HeadHas(u, head, over, x) {
      CoversPush(Vacated(locs, r), head_, x);
    }
    forall x | HeadHas(u', new_, over, x) ensures x in Range(new_, Envelope(u, over)) {}
    forall x | LocsHave(Some(r), x) ensures x in owned1 && (x in owned ==> LocsHave(u.content, x) && !Covers(gone, x)) {
      StayedBytes(d, locs, owned, d', r, owned1, x);
    }
    forall x | Covers(Vacated(locs, r), x) ensures LocsHave(u.content, x)
        { VacatedOld(d, locs, owned, d', r, owned1, x); }
    assert new_ in Range(new_, Envelope(u, over));
  }

  // ---------------------------------------------------------------- what waits for the flip

  /** Whole blocks, each waiting once. */
  ghost predicate Waiting(l: seq<Ext>) {
    && (forall i | 0 <= i < |l| :: Even(l[i]) && l[i].len > 0)
    && (forall i, j, x | 0 <= i < j < |l| && l[i].Has(x) :: !l[j].Has(x))
  }

  lemma WaitingBoth(a: seq<Ext>, b: seq<Ext>)
    requires Waiting(a) && Waiting(b) && forall x | Covers(a, x) :: !Covers(b, x)
    ensures Waiting(a + b)
  {
    var r := a + b;
    forall i | 0 <= i < |r| ensures Even(r[i]) && r[i].len > 0 { assert r[i] == if i < |a| then a[i] else b[i - |a|]; }
    forall i, j, x | 0 <= i < j < |r| && r[i].Has(x) ensures !r[j].Has(x) {
      assert i < |a| ==> Covers(a, x);
      assert j >= |a| ==> r[j] == b[j - |a|];
    }
  }

  lemma WaitingOne(e: Ext)
    requires Even(e) && e.len > 0
    ensures Waiting([e]) && forall x :: Covers([e], x) <==> e.Has(x)
  {
    forall x ensures Covers([e], x) <==> e.Has(x) { CoversPush([], e, x); assert [] + [e] == [e]; }
  }

  lemma {:induction false} VacatedWaits(l: seq<Loc>, r: seq<Loc>)
    requires |l| == |r| && Disjoint(l) && Aligned(Some(l)) && forall j | 0 <= j < |l| :: Lower(l[j], r[j])
    ensures Waiting(Vacated(l, r))
    decreases |l|
  {
    hide LocHas, Covers;
    if l != [] {
      var n := |l| - 1;
      VacatedWaits(l[..n], r[..n]);
      assert Lower(l[n], r[n]);
      if r[n] != l[n] {
        var e := Ext(l[n].addr, F.RoundUp(l[n].len));
        WaitingOne(e);
        forall x | Covers(Vacated(l[..n], r[..n]), x) ensures !e.Has(x) {
          VacatedCovers(l[..n], r[..n], x);
          var j :| 0 <= j < n && LocHas(l[..n][j], x);
          assert LocHas(l[j], x) && !LocHas(l[n], x);
          FootprintOf(l[n], x);
        }
        WaitingBoth(Vacated(l[..n], r[..n]), [e]);
      }
    }
  }

  lemma FootprintOf(l: Loc, x: int)
    requires l.len >= BLOCK
    ensures LocHas(l, x) <==> Ext(l.addr, F.RoundUp(l.len)).Has(x)
  {}

  /** What one unit gives up waits with what others gave up before. */
  lemma GoneWaits(u: Unit, head: nat, over: nat, d: Disk, owned: F.Bytes, d': Disk, r: seq<Loc>, owned': F.Bytes,
      frees: seq<Ext>)
    requires u.content.Some? && Moving(d, u.content.value, owned, d', r, owned', |u.content.value|)
        && WellLaid(u, head, over)
    requires head % BLOCK == 0 && Aligned(u.content) && Waiting(frees)
    requires forall x | UnitHas(u, head, over, x) :: !Covers(frees, x)
    ensures Waiting(frees + (Vacated(u.content.value, r) + [Ext(head, Envelope(u, over))]))
  {
    hide LocsHave, Covers, Vacated, F.RoundUp, Waiting, Aligned, Disjoint, InOwned, Frag;
    var locs, e := u.content.value, Ext(head, Envelope(u, over));
    assert u.content == Some(locs);
    forall m | 0 <= m < |locs| ensures Lower(locs[m], r[m]) { assert Carried(d, locs[m], owned, d', r[m], owned'); }
    VacatedWaits(locs, r);
    WaitingOne(e);
    forall x | Covers(Vacated(locs, r), x) ensures LocsHave(u.content, x)
        { VacatedOld(d, locs, owned, d', r, owned', x); }
    WaitingBoth(Vacated(locs, r), [e]);
    forall x | Covers(Vacated(locs, r) + [e], x) ensures !Covers(frees, x) {
      CoversPush(Vacated(locs, r), e, x);
      assert HeadHas(u, head, over, x) || LocsHave(u.content, x);
    }
    WaitingBoth(frees, Vacated(locs, r) + [e]);
  }

  /**
   The flip seen by the allocator: the new root is published and the waiting bytes are free, and may be
   discarded one flip later.
   */
  ghost predicate Flipped(s: F.Space, s': F.Space, ref: F.Bytes, r: F.Bytes) {
    s' == s.(ok := s.ok + s.pend, pend := r, live := s.live + r, owned := s.owned - r, used := s.used - r,
        active := ref,
             loser := s.active, floor := None, base := s'.base, filled := s'.filled)
  }

  lemma FlipStart(s: F.Space, s': F.Space, ref: F.Bytes)
    requires s.nodes == iset{} && s.data == iset{} && F.Published(s, s', ref)
    ensures Flipped(s, s', ref, Cover([]))
  {
    assert Cover([]) == iset{};
    assert s.head + s.nodes == s.head && s.live + s.data == s.live;
    assert s.nodes + s.data == iset{};
    assert s.owned - iset{} == s.owned && s.used - iset{} == s.used;
    assert s.live + iset{} == s.live;
  }

  /** The next waiting extent may be freed. */
  lemma FlipNext(s: F.Space, m: F.Space, ref: F.Bytes, frees: seq<Ext>, i: nat)
    requires i < |frees| && Waiting(frees) && Flipped(s, m, ref, Cover(frees[..i])) && s.nodes == iset{}
        && s.data == iset{}
    requires forall x | Covers(frees, x) :: x in s.owned && x < s.frontier && x !in ref
    ensures var r := Range(frees[i].addr, frees[i].len);
            && F.RoundUp(frees[i].len) == frees[i].len && r <= m.owned && frees[i].End() <= m.frontier
            && F.Apart(r, m.nodes) && F.Apart(r, m.data) && F.Apart(r, m.active)
            && Cover(frees[..i + 1]) == Cover(frees[..i]) + r
  {
    var e := frees[i];
    forall x | e.Has(x) ensures x in s.owned && x < s.frontier && x !in ref && x !in Cover(frees[..i]) {
      CoversAt(frees, i, x);
      forall j | 0 <= j < i ensures !frees[..i][j].Has(x) { assert frees[..i][j] == frees[j]; }
    }
    assert e.Has(e.End() - 1);
    assert frees[..i + 1] == frees[..i] + [e];
    forall x ensures Covers(frees[..i + 1], x) <==> Covers(frees[..i], x) || e.Has(x) { CoversPush(frees[..i], e, x); }
  }

  lemma FlipMore(s: F.Space, m: F.Space, m1: F.Space, m2: F.Space, ref: F.Bytes, r: F.Bytes, a: nat, n: nat)
    requires Flipped(s, m, ref, r) && F.Freed(m, m1, F.Live, a, n) && m2 == m1.(pend := m1.pend + Range(a, n))
    ensures Flipped(s, m2, ref, r + Range(a, n))
  {
    assert s.live + (r + Range(a, n)) == (s.live + r) + Range(a, n);
    assert s.owned - (r + Range(a, n)) == (s.owned - r) - Range(a, n);
    assert s.used - (r + Range(a, n)) == (s.used - r) - Range(a, n);
  }

  lemma CoverBlocked(l: seq<Ext>)
    requires Waiting(l)
    ensures Blocked(Cover(l))
  {
    forall x: nat, y: nat | x in Cover(l) && SameBlock(x, y) ensures y in Cover(l) { EvenBlock(l, x, y); }
  }

  /** Units and catalog nodes stay where they are when the waiting bytes go. */
  lemma FlipLaid(recs: Store, ids: map<nat, nat>, over: nat, nodes: seq<nat>, s: F.Space, s': F.Space, ref: F.Bytes,
      frees: seq<Ext>)
    requires Laid(recs, ids, over, Ours(s, nodes), frees) && Sited(s, nodes) && Waiting(frees)
        && Flipped(s, s', ref, Cover(frees))
    ensures Laid(recs, ids, over, Ours(s', nodes), []) && Sited(s', nodes)
  {
    hide UnitHas, WellLaid, Covers, NodesHave, Waiting;
    forall x ensures x in Cover(frees) <==> Covers(frees, x) {}
    forall x | Covers([], x) ensures false { NoneCovered(x); }
    CoverBlocked(frees);
  }

  // ---------------------------------------------------------------- what stays the same

  ghost predicate SameFrags(d: Disk, l: seq<Loc>, d': Disk, l': seq<Loc>) {
    |l| == |l'| && forall j | 0 <= j < |l| :: Lower(l[j], l'[j]) && Frag(d', l'[j]) == Frag(d, l[j])
  }

  /** The same unit with the same stored bytes; only content addresses may have gone down. */
  ghost predicate SameUnit(d: Disk, u: Unit, d': Disk, u': Unit) {
    && u' == u.(content := u'.content) && u'.content.Some? == u.content.Some?
    && (u.content.Some? ==> SameFrags(d, u.content.value, d', u'.content.value))
    && (u.meta.Some? ==> SameFrags(d, u.meta.value, d', u.meta.value))
  }

  ghost predicate SameUnits(d: Disk, recs: Store, ids: map<nat, nat>, d': Disk, recs': Store, ids': map<nat, nat>) {
    && ids'.Keys == ids.Keys
    && (forall k: nat :: Known(recs', ids', k) <==> Known(recs, ids, k))
    && forall k: nat | Known(recs, ids, k) :: SameUnit(d, recs[ids[k]], d', recs'[ids'[k]])
  }

  lemma SameUnitsTrans(d: Disk, recs: Store, ids: map<nat, nat>, d1: Disk, recs1: Store, ids1: map<nat, nat>, d2: Disk,
      recs2: Store,
                       ids2: map<nat, nat>)
    requires SameUnits(d, recs, ids, d1, recs1, ids1) && SameUnits(d1, recs1, ids1, d2, recs2, ids2)
    ensures SameUnits(d, recs, ids, d2, recs2, ids2)
  {
    hide Frag;
    forall k: nat | Known(recs, ids, k) ensures SameUnit(d, recs[ids[k]], d2, recs2[ids2[k]]) {
      assert SameUnit(d, recs[ids[k]], d1, recs1[ids1[k]]) && SameUnit(d1, recs1[ids1[k]], d2, recs2[ids2[k]]);
    }
  }

  lemma FragsStay(d: Disk, d': Disk, owned: F.Bytes, l: seq<Loc>)
    requires SameOn(d, d', owned) && forall x | LocsHave(Some(l), x) :: x in owned
    ensures SameFrags(d, l, d', l) && forall j | 0 <= j < |l| :: InOwned(l[j], owned)
  {
    hide LocHas, Frag;
    forall j | 0 <= j < |l| ensures InOwned(l[j], owned) && Frag(d', l[j]) == Frag(d, l[j]) {
      forall x | LocHas(l[j], x) ensures x in owned { assert LocHas(Some(l).value[j], x); assert LocsHave(Some(l), x); }
      FragSame(d, d', owned, l[j]);
    }
  }

  lemma UnitStays(d: Disk, d': Disk, owned: F.Bytes, u: Unit, head: nat, over: nat)
    requires SameOn(d, d', owned) && forall x | UnitHas(u, head, over, x) :: x in owned
    ensures SameUnit(d, u, d', u)
  {
    hide LocsHave, SameFrags;
    if u.content.Some? { assert u.content == Some(u.content.value); FragsStay(d, d', owned, u.content.value); }
    if u.meta.Some? { assert u.meta == Some(u.meta.value); FragsStay(d, d', owned, u.meta.value); }
  }

  lemma UnitMoves(d: Disk, d': Disk, owned: F.Bytes, u: Unit, head: nat, over: nat, r: seq<Loc>, owned': F.Bytes)
    requires u.content.Some? && Moving(d, u.content.value, owned, d', r, owned', |u.content.value|)
    requires forall x | UnitHas(u, head, over, x) :: x in owned
    ensures SameUnit(d, u, d', u.(content := Some(r)))
  {
    hide LocsHave, Frag, InOwned, Disjoint;
    var locs := u.content.value;
    forall j | 0 <= j < |locs| ensures Lower(locs[j], r[j]) && Frag(d', r[j]) == Frag(d, locs[j]) {
      assert Carried(d, locs[j], owned, d', r[j], owned');
    }
    if u.meta.Some? { assert u.meta == Some(u.meta.value); FragsStay(d, d', owned, u.meta.value); }
  }

  /** All units keep their bytes while writes land outside what they own. */
  lemma UnitsStay(recs: Store, ids: map<nat, nat>, over: nat, owned: F.Bytes, frees: seq<Ext>, d: Disk, d': Disk)
    requires Laid(recs, ids, over, owned, frees) && SameOn(d, d', owned)
    ensures SameUnits(d, recs, ids, d', recs, ids)
  {
    hide UnitHas, SameUnit, SameOn, WellLaid;
    forall k: nat | Known(recs, ids, k) ensures SameUnit(d, recs[ids[k]], d', recs[ids[k]]) {
      forall x | UnitHas(recs[ids[k]], ids[k], over, x) ensures x in owned { assert Holds(recs, ids, over, k, x); }
      UnitStays(d, d', owned, recs[ids[k]], ids[k], over);
    }
  }

  lemma UnitsRepointed(recs: Store, ids: map<nat, nat>, over: nat, owned: F.Bytes, frees: seq<Ext>, d: Disk, d': Disk,
      k: nat, new_: nat,
                       u': Unit)
    requires Laid(recs, ids, over, owned, frees) && SameOn(d, d', owned) && Known(recs, ids, k) && new_ != 0
        && new_ !in owned
    requires SameUnit(d, recs[ids[k]], d', u')
    ensures SameUnits(d, recs, ids, d', recs[new_ := u'], ids[k := new_])
  {
    hide UnitHas, SameUnit, SameOn, WellLaid;
    UnitsStay(recs, ids, over, owned, frees, d, d');
    forall m: nat | Known(recs, ids, m) ensures m != k ==> ids[m] != new_ { HeadOf(recs, ids, over, m); }
  }

  // ---------------------------------------------------------------- convergence

  /** The sum of fragment addresses. */
  function Height(l: seq<Loc>): nat { if l == [] then 0 else Height(l[..|l| - 1]) + l[|l| - 1].addr }

  lemma Rejoin(l: seq<Loc>, r: seq<Loc>, n: nat)
    requires |l| == |r| == n + 1 && l[..n] == r[..n] && l[n] == r[n]
    ensures l == r
  {
    assert l == l[..n] + [l[n]] && r == r[..n] + [r[n]];
  }

  lemma {:induction false} LowerHeight(l: seq<Loc>, r: seq<Loc>)
    requires |l| == |r| && forall j | 0 <= j < |l| :: Lower(l[j], r[j])
    ensures Height(r) <= Height(l) && (r != l ==> Height(r) < Height(l))
    decreases |l|
  {
    if l != [] {
      var n := |l| - 1;
      assert Lower(l[n], r[n]);
      LowerHeight(l[..n], r[..n]);
      if r[n] == l[n] && r[..n] == l[..n] { Rejoin(l, r, n); }
    }
  }

  function UnitHeight(recs: Store, ids: map<nat, nat>, k: nat): nat {
    if Known(recs, ids, k) && recs[ids[k]].content.Some? then Height(recs[ids[k]].content.value) else 0
  }

  function PassHeight(recs: Store, ids: map<nat, nat>, units: seq<nat>): nat {
    if units == [] then 0 else PassHeight(recs, ids, units[..|units| - 1]) + UnitHeight(recs, ids, units[|units| - 1])
  }

  lemma HeightFalls(d: Disk, recs: Store, ids: map<nat, nat>, d': Disk, recs': Store, ids': map<nat, nat>, k: nat)
    requires SameUnits(d, recs, ids, d', recs', ids')
    ensures UnitHeight(recs', ids', k) <= UnitHeight(recs, ids, k)
    ensures Known(recs, ids, k) && recs'[ids'[k]].content != recs[ids[k]].content ==>
        UnitHeight(recs', ids', k) < UnitHeight(recs, ids, k)
  {
    hide Frag;
    if Known(recs, ids, k) {
      var u, u' := recs[ids[k]], recs'[ids'[k]];
      assert SameUnit(d, u, d', u');
      if u.content.Some? { LowerHeight(u.content.value, u'.content.value); }
    }
  }

  /** A pass never raises the total, and lowers it when a unit it visits has moved. */
  lemma {:induction false} PassFalls(d: Disk, recs: Store, ids: map<nat, nat>, d': Disk, recs': Store, ids': map<nat,
      nat>, units: seq<nat>,
                                     k: nat)
    requires SameUnits(d, recs, ids, d', recs', ids') && Known(recs, ids, k)
    ensures PassHeight(recs', ids', units) <= PassHeight(recs, ids, units)
    ensures k in units && recs'[ids'[k]].content != recs[ids[k]].content ==>
              PassHeight(recs', ids', units) < PassHeight(recs, ids, units)
    decreases |units|
  {
    hide SameUnit;
    if units != [] {
      var n := |units| - 1;
      PassFalls(d, recs, ids, d', recs', ids', units[..n], k);
      HeightFalls(d, recs, ids, d', recs', ids', units[n]);
    }
  }

  lemma UnitOwns(recs: Store, ids: map<nat, nat>, over: nat, owned: F.Bytes, frees: seq<Ext>, k: nat)
    requires Laid(recs, ids, over, owned, frees) && Known(recs, ids, k)
    ensures var u := recs[ids[k]];
            && WellLaid(u, ids[k], over) && (forall x | UnitHas(u, ids[k], over, x) :: x in owned && !Covers(frees, x))
            && (u.content.Some? ==>
                Disjoint(u.content.value) && forall j | 0 <= j < |u.content.value| ::
                  InOwned(u.content.value[j], owned))
  {
    var u := recs[ids[k]];
    hide LocHas, HeadHas, Covers;
    forall x | UnitHas(u, ids[k], over, x) ensures x in owned && !Covers(frees, x)
        { assert Holds(recs, ids, over, k, x); }
    if u.content.Some? {
      forall j, x | 0 <= j < |u.content.value| && LocHas(u.content.value[j], x) ensures x in owned
          { assert LocsHave(u.content, x); }
    }
  }

  lemma OthersKept(recs: Store, ids: map<nat, nat>, over: nat, owned: F.Bytes, frees: seq<Ext>, k: nat, new_: nat,
      u': Unit)
    requires Laid(recs, ids, over, owned, frees) && new_ !in owned && new_ != 0
    ensures forall m: nat | m != k && Known(recs[new_ := u'], ids[k := new_], m) ::
              Known(recs, ids, m) && recs[new_ := u'][ids[k := new_][m]] == recs[ids[m]]
  {
    hide UnitHas, WellLaid, Covers;
    forall m: nat | m != k && Known(recs[new_ := u'], ids[k := new_], m)
      ensures Known(recs, ids, m) && recs[new_ := u'][ids[k := new_][m]] == recs[ids[m]]
    {
      if Known(recs, ids, m) { HeadOf(recs, ids, over, m); }
    }
  }

  lemma LaidGrows(recs: Store, ids: map<nat, nat>, over: nat, owned: F.Bytes, frees: seq<Ext>, owned': F.Bytes)
    requires Laid(recs, ids, over, owned, frees) && owned <= owned'
    ensures Laid(recs, ids, over, owned', frees)
  {
    hide UnitHas, WellLaid, Covers;
  }

  lemma SameOnTrans(d: Disk, d1: Disk, d2: Disk, r: F.Bytes, r1: F.Bytes)
    requires SameOn(d, d1, r) && SameOn(d1, d2, r1) && r <= r1
    ensures SameOn(d, d2, r)
  {}

  lemma MovingOn(d: Disk, locs: seq<Loc>, owned: F.Bytes, d1: Disk, r: seq<Loc>, owned1: F.Bytes, d2: Disk,
      owned2: F.Bytes)
    requires Moving(d, locs, owned, d1, r, owned1, |locs|) && SameOn(d1, d2, owned1) && owned1 <= owned2
    ensures Moving(d, locs, owned, d2, r, owned2, |locs|)
  {
    hide Carried, InOwned, Disjoint;
    forall j | 0 <= j < |locs| ensures Carried(d, locs[j], owned, d2, r[j], owned2) {
      CarriedOn(d, locs[j], owned, d1, r[j], owned1, d2, owned2);
    }
  }

  lemma FreshHead(u: Unit, head: nat, u': Unit, new_: nat, over: nat, owned: F.Bytes, owned': F.Bytes, gone: seq<Ext>)
    requires Succeeds(u, head, u', new_, over, owned, owned', gone)
    ensures new_ !in owned
  {}

  lemma {:induction false} VacatedSelf(l: seq<Loc>)
    ensures Vacated(l, l) == []
    decreases |l|
  {
    if l != [] { VacatedSelf(l[..|l| - 1]); }
  }

  // ---------------------------------------------------------------- accounting protects what units use

  predicate Aligned(s: Option<seq<Loc>>) {
    s.Some? ==> forall j | 0 <= j < |s.value| && s.value[j].len >= BLOCK :: s.value[j].addr % BLOCK == 0
  }

  lemma StreamAccounted(s: Option<seq<Loc>>, x: int)
    requires Aligned(s) && LocsHave(s, x)
    ensures StreamHas(s, x)
  {
    var j :| 0 <= j < |s.value| && LocHas(s.value[j], x);
    assert s.value[j].Span().Has(x);
  }

  /** Whatever a known unit uses, the id catalog's accounting covers. */
  lemma UnitAccounted(recs: Store, ids: map<nat, nat>, over: nat, heads: seq<Option<nat>>, k: nat, x: int)
    requires Known(recs, ids, k) && ids[k] != 0 && Some(ids[k]) in heads && Holds(recs, ids, over, k, x)
    requires Aligned(recs[ids[k]].content) && Aligned(recs[ids[k]].meta)
    ensures IdsHave(recs, heads, over, x)
  {
    hide StreamHas, LocsHave, Aligned;
    var u := recs[ids[k]];
    if LocsHave(u.content, x) { StreamAccounted(u.content, x); }
    if LocsHave(u.meta, x) { StreamAccounted(u.meta, x); }
    assert RecordHas(u, ids[k], over, x);
    var i :| 0 <= i < |heads| && heads[i] == Some(ids[k]);
    assert ChainHas(recs, heads[i].value, over, MAX_CHAIN, x);
  }

  /** Records and their whole-block fragments lie on block boundaries. */
  ghost predicate Gridded(recs: Store) {
    OnGrid(recs) && forall a: nat | a in recs :: Aligned(recs[a].content) && Aligned(recs[a].meta)
  }

  lemma GriddedMore(recs: Store, head: nat, new_: nat, r: seq<Loc>)
    requires Gridded(recs) && head in recs && new_ % BLOCK == 0 && Aligned(Some(r))
    ensures Gridded(recs[new_ := recs[head].(content := Some(r))])
  {
    hide Aligned;
  }

  /** The accounting visits every id's record. */
  ghost predicate Catalogued(recs: Store, ids: map<nat, nat>, heads: seq<Option<nat>>) {
    forall k: nat | Known(recs, ids, k) :: Some(ids[k]) in heads
  }

  lemma LaidAfterScan(recs: Store, ids: map<nat, nat>, over: nat, nodes: seq<nat>, heads: seq<Option<nat>>, s: F.Space,
      s': F.Space,
                      l: seq<Ext>)
    requires Laid(recs, ids, over, Ours(s, nodes), []) && Catalogued(recs, ids, heads) && Gridded(recs) && F.Parts(s)
    requires Returned(s, s', Holes(l, DATA_START, s.frontier)) && forall x | IdsHave(recs, heads, over, x) ::
        Covers(l, x)
    ensures Laid(recs, ids, over, Ours(s', nodes), [])
  {
    hide UnitHas, WellLaid, Covers, InHole, Aligned, IdsHave, NodesHave;
    forall x | Covers([], x) ensures false { NoneCovered(x); }
    forall k: nat, x | Known(recs, ids, k) && Holds(recs, ids, over, k, x) ensures x in Ours(s', nodes)
    {
      HeadOf(recs, ids, over, k);
      UnitAccounted(recs, ids, over, heads, k, x);
      NoHole(l, DATA_START, s.frontier, x);
    }
  }

  /** A scan over whole-block intervals frees exactly what they leave out, in whole blocks, and no catalog node. */
  lemma ScanSited(s: F.Space, s': F.Space, nodes: seq<nat>, l: seq<Ext>)
    requires Sited(s, nodes) && Returned(s, s', Holes(l, DATA_START, s.frontier)) && EvenFrom(l, 0)
    requires forall x | NodesHave(nodes, x) :: Covers(l, x)
    ensures Sited(s', nodes)
    ensures forall x :: x in Holes(l, DATA_START, s.frontier) <==> DATA_START <= x < s.frontier && !Covers(l, x)
  {
    hide Covers, InHole, NodesHave, Even;
    var h := Holes(l, DATA_START, s.frontier);
    forall x ensures x in h <==> DATA_START <= x < s.frontier && !Covers(l, x)
        { EvenHoles(l, DATA_START, s.frontier, x); }
    forall x: nat, y: nat | x in h && SameBlock(x, y) ensures y in h { EvenBlock(l, y, x); }
  }

  lemma NoneCovered(x: int)
    ensures !Covers([], x)
  {}

  method NodeIntervals(nodes: seq<nat>) returns (r: seq<Ext>)
    ensures Pushed(r) && forall x :: Covers(r, x) <==> NodesHave(nodes, x)
    ensures (forall i | 0 <= i < |nodes| :: nodes[i] % BLOCK == 0) ==> EvenFrom(r, 0)
  {
    r := seq(|nodes|, i requires 0 <= i < |nodes| => Ext(nodes[i], F.PAIR));
    forall x ensures Covers(r, x) <==> NodesHave(nodes, x) {
      if i :| 0 <= i < |nodes| && Ext(nodes[i], F.PAIR).Has(x) { assert r[i].Has(x); }
      if i :| 0 <= i < |r| && r[i].Has(x) { assert Ext(nodes[i], F.PAIR).Has(x); }
    }
  }

  ghost predicate InLists(s: F.Space, x: int) { x in s.head || x in s.live || x in s.tail }

  lemma AllAccounted(s: F.Space, nodes: seq<nat>, heads: seq<Option<nat>>, recs: Store, over: nat, reached: seq<Ext>,
      head: seq<Ext>,
                     live: seq<Ext>, tail: seq<Ext>)
    requires s.nodes == iset{} && s.data == iset{} && s.lo <= DATA_START
    requires Canonical(head) && Canonical(live) && Canonical(tail) && Pushed(reached)
    requires s.head == Cover(head) && s.live == Cover(live) && s.tail == Cover(tail)
    requires forall x :: x in s.active ==> NodesHave(nodes, x) || IdsHave(recs, heads, over, x)
    requires forall x :: Covers(reached, x) <==> NodesHave(nodes, x) || IdsHave(recs, heads, over, x)
    ensures var l := reached + head + live + tail;
            Accounted(s, l) && Pushed(l)
            && forall x :: Covers(l, x) <==> NodesHave(nodes, x) || IdsHave(recs, heads, over, x) || InLists(s, x)
  {
    hide NodesHave, IdsHave, Covers;
    var l := reached + head + live + tail;
    forall x ensures Covers(l, x) <==> Covers(reached, x) || Covers(head, x) || Covers(live, x) || Covers(tail, x) {
      CoversBoth(reached, head, x);
      CoversBoth(reached + head, live, x);
      CoversBoth(reached + head + live, tail, x);
    }
  }

  lemma ListEven(l: seq<Ext>)
    requires Extents.Canonical(l) && Blocked(Cover(l))
    ensures EvenFrom(l, 0)
  {
    forall k | 0 <= k < |l| ensures Even(l[k]) { CanonicalEven(l, k); }
  }

  lemma AllEven(s: F.Space, nodes: seq<nat>, reached: seq<Ext>, head: seq<Ext>, live: seq<Ext>, tail: seq<Ext>)
    requires Sited(s, nodes) && EvenFrom(reached, 0) && Canonical(head) && Canonical(live) && Canonical(tail)
    requires s.head == Cover(head) && s.live == Cover(live) && s.tail == Cover(tail)
    ensures EvenFrom(reached + head + live + tail, 0)
  {
    hide Canonical, Cover, Blocked, Even;
    ListEven(head);
    ListEven(live);
    ListEven(tail);
  }

  /** The payload of a rewritten record, with the tag it may carry, still fits. */
  predicate RewriteFits(u: Unit, over: nat) { (if over == 16 then u.len else u.len + 16) <= MAX_RECORD }

  /** History-free, unstrained, unpinned content with at least one fragment. */
  predicate Eligible(u: Unit) {
    u.content.Some? && u.content.value != [] && u.parent.None? && !u.strained && u.suite && !u.pinned
  }

  /** The units that defragmentation is for. */
  ghost predicate MayMove(u: Unit) {
    u.content.Some? && |u.content.value| > 0 && u.parent == None && !u.strained && u.suite && !u.pinned
  }

  /** Nothing left to do for a unit. */
  ghost predicate Idle(recs: Store, ids: map<nat, nat>, free: seq<Ext>, k: nat) {
    Known(recs, ids, k) && MayMove(recs[ids[k]]) ==>
      forall j | 0 <= j < |recs[ids[k]].content.value| :: Settled(free, recs[ids[k]].content.value[j])
  }

  lemma IdlePlain(recs: Store, ids: map<nat, nat>, free: seq<Ext>, k: nat)
    requires Known(recs, ids, k) && Idle(recs, ids, free, k)
    ensures var u := recs[ids[k]];
      u.content.Some? && u.content.value != [] && u.parent.None? && !u.strained && u.suite && !u.pinned ==>
        forall j, a: nat | 0 <= j < |u.content.value| && u.content.value[j].len >= 4096
            && FirstFit(free, F.RoundUp(u.content.value[j].len), a) :: a >= u.content.value[j].addr
  {
    hide FirstFit, F.RoundUp;
  }

  /** Some byte of the fragment's blocks cannot be read. */
  ghost predicate Unreadable(d: Disk, l: Loc) { exists i :: 0 <= i < |Frag(d, l)| && Frag(d, l)[i] == None }

  /**
   What keeps a unit from being compacted: a record that cannot be read or would not fit its rewrite, a fragment that
   cannot be read, or no room for one more record.
   */
  ghost predicate Stuck(d: Disk, recs: Store, ids: map<nat, nat>, over: nat, room: int, k: nat) {
    k in ids && (Readable(recs, ids[k]) ==>
      var u := recs[ids[k]];
      || (if over == 16 then u.len else u.len + 16) > 67108864
      || F.RoundUp(over + u.len) > room
      || (u.content.Some? && exists j :: 0 <= j < |u.content.value| && Unreadable(d, u.content.value[j])))
  }

  /** Moving changes none of these, room apart. */
  lemma StuckSame(d: Disk, recs: Store, ids: map<nat, nat>, d': Disk, recs': Store, ids': map<nat, nat>, over: nat,
      room: int, k: nat)
    requires SameUnits(d, recs, ids, d', recs', ids')
    ensures Stuck(d', recs', ids', over, room, k) <==> Stuck(d, recs, ids, over, room, k)
  {
    hide Frag, F.RoundUp, SameUnit;
    assert Known(recs', ids', k) <==> Known(recs, ids, k);
    if Known(recs, ids, k) { FragsStuck(d, recs[ids[k]], d', recs'[ids'[k]]); }
  }

  lemma FragsStuck(d: Disk, u: Unit, d': Disk, u': Unit)
    requires SameUnit(d, u, d', u')
    ensures u'.len == u.len && u'.content.Some? == u.content.Some?
    ensures u.content.Some? ==>
        && |u'.content.value| == |u.content.value|
        && forall j | 0 <= j < |u.content.value| ::
             Unreadable(d', u'.content.value[j]) <==> Unreadable(d, u.content.value[j])
  {
    hide Frag;
    if u.content.Some? {
      forall j | 0 <= j < |u.content.value| ensures Unreadable(d', u'.content.value[j]) <==>
          Unreadable(d, u.content.value[j])
      {
        assert Frag(d', u'.content.value[j]) == Frag(d, u.content.value[j]);
      }
    }
  }

  lemma UnreadableSame(d: Disk, d': Disk, owned: F.Bytes, l: Loc)
    requires SameOn(d, d', owned) && InOwned(l, owned)
    ensures Unreadable(d, l) <==> Unreadable(d', l)
  {
    FragSame(d, d', owned, l);
  }

  lemma OwnedStill(d: Disk, locs: seq<Loc>, owned: F.Bytes, d': Disk, r: seq<Loc>, s: F.Space, nodes: seq<nat>, i: nat)
    requires Moving(d, locs, owned, d', r, Ours(s, nodes), i) && i < |locs|
    ensures InOwned(locs[i], s.owned)
  {
    hide LocHas, Carried, SameOn, Disjoint, NodesHave;
  }

  lemma MissingBlock(d: Disk, l: Loc, x: int)
    requires l.len >= BLOCK && l.addr <= x < l.addr + F.RoundUp(l.len) && x !in d
    ensures Unreadable(d, l)
  {
    var i := x - l.addr;
    assert ByteAt(d, l.addr + i) == None;
    assert |Frag(d, l)| == F.RoundUp(l.len) && Frag(d, l)[i] == None;
  }

  lemma StillIdle(recs: Store, ids: map<nat, nat>, free: seq<Ext>, recs': Store, ids': map<nat, nat>, free': seq<Ext>,
      k: nat)
    requires Idle(recs, ids, free, k) && Extents.Canonical(free) && Cover(free') <= Cover(free)
    requires Known(recs', ids', k) ==> Known(recs, ids, k) && recs'[ids'[k]] == recs[ids[k]]
    ensures Idle(recs', ids', free', k)
  {
    hide Extents.Canonical, Settled, Cover;
    if Known(recs', ids', k) && MayMove(recs'[ids'[k]]) { AllSettled(free, free', recs[ids[k]].content.value); }
  }

  lemma ListsOf(fa: F.Falloc)
    requires fa.Valid()
    ensures Extents.Canonical(fa.live)
  {}

  lemma SameOnOurs(d: Disk, d': Disk, s: F.Space, nodes: seq<nat>)
    requires SameOn(d, d', s.owned)
    ensures SameOn(d, d', Ours(s, nodes))
  {
    hide NodesHave;
  }

  lemma AlignedGrows(locs: seq<Loc>, r: seq<Loc>, i: nat, l: Loc)
    requires i < |locs| && (l == locs[i] || l.addr % BLOCK == 0) && (Aligned(Some(locs)) ==> Aligned(Some(r)))
    ensures Aligned(Some(locs)) ==> Aligned(Some(r + [l]))
  {}

  lemma GridOf(recs: Store, a: nat)
    requires Gridded(recs) && a in recs
    ensures a % BLOCK == 0 && Aligned(recs[a].content)
  {}

  lemma ReachedEven(s: F.Space, nodes: seq<nat>, recs: Store, pairs: seq<Ext>, r: seq<Ext>)
    requires Sited(s, nodes) && Gridded(recs) && pairs <= r
    requires (forall i | 0 <= i < |nodes| :: nodes[i] % BLOCK == 0) ==> EvenFrom(pairs, 0)
    requires OnGrid(recs) ==> EvenFrom(r, |pairs|)
    ensures EvenFrom(r, 0)
  {
    hide NodesHave, Blocked, Even, Aligned, OnGrid;
    forall i | 0 <= i < |r| ensures Even(r[i]) { if i < |pairs| { assert r[i] == pairs[i]; } }
  }

  lemma FreesOwned(recs: Store, ids: map<nat, nat>, over: nat, nodes: seq<nat>, s: F.Space, frees: seq<Ext>)
    requires Laid(recs, ids, over, Ours(s, nodes), frees)
    ensures forall x | Covers(frees, x) :: x in s.owned && x < s.frontier
  {
    hide Covers, NodesHave, UnitHas, WellLaid;
  }

  lemma NotableNow(m: F.Space, m1: F.Space, a: nat, n: nat)
    requires F.Freed(m, m1, F.Live, a, n)
    ensures F.Notable(m1, a, n)
  {}

  lemma NothingDeferred(s: F.Space, ref: F.Bytes)
    requires s.nodes == iset{} && s.data == iset{} && ref <= s.owned && forall x | x in ref :: x < s.frontier
    ensures F.Publishable(s, ref)
  {}

  lemma NoneWaits()
    ensures Waiting([])
  {}

  lemma SitedBegun(s: F.Space, nodes: seq<nat>)
    requires Sited(s, nodes)
    ensures Sited(F.Begun(s), nodes) && Ours(F.Begun(s), nodes) == Ours(s, nodes)
  {}

  lemma BegunSwept(s: F.Space, recs: Store, ids: map<nat, nat>, nodes: seq<nat>, over: nat)
    ensures Swept(s, recs, ids, nodes, over) <==> Swept(F.Begun(s), recs, ids, nodes, over)
  {
    hide Reached;
  }

  lemma SitedAborted(s: F.Space, nodes: seq<nat>)
    requires Sited(s, nodes)
    ensures Sited(F.Aborted(s), nodes) && Ours(F.Aborted(s), nodes) == Ours(s, nodes)
  {}

  /** The catalogs' node pairs, and everything on the record chain of an id. */
  ghost predicate Reached(recs: Store, ids: map<nat, nat>, nodes: seq<nat>, over: nat, x: int) {
    NodesHave(nodes, x) || exists k :: k in ids && ChainHas(recs, ids[k], over, MAX_CHAIN, x)
  }

  /** The id catalog's values. */
  method Heads(ids: map<nat, nat>) returns (heads: seq<Option<nat>>)
    ensures forall k | k in ids :: Some(ids[k]) in heads
    ensures forall i | 0 <= i < |heads| :: heads[i].Some? && heads[i].value in ids.Values
  {
    heads := [];
    var rest := ids.Keys;
    while rest != {}
      invariant rest <= ids.Keys && forall k | k in ids && k !in rest :: Some(ids[k]) in heads
      invariant forall i | 0 <= i < |heads| :: heads[i].Some? && heads[i].value in ids.Values
      decreases |rest|
    {
      var k :| k in rest;
      heads, rest := heads + [Some(ids[k])], rest - {k};
    }
  }

  lemma BrokenHead(recs: Store, ids: map<nat, nat>, heads: seq<Option<nat>>)
    requires forall i | 0 <= i < |heads| :: heads[i].Some? && heads[i].value in ids.Values
    ensures !IdsOk(recs, heads) ==> exists k :: k in ids && !ChainOk(recs, ids[k], MAX_CHAIN)
  {
    hide ChainOk;
    if !IdsOk(recs, heads) {
      var i :| 0 <= i < |heads| && heads[i].Some? && !ChainOk(recs, heads[i].value, MAX_CHAIN);
      var k :| k in ids && ids[k] == heads[i].value;
    }
  }

  lemma HeadsReach(recs: Store, ids: map<nat, nat>, nodes: seq<nat>, heads: seq<Option<nat>>, over: nat, x: int)
    requires (forall k | k in ids :: Some(ids[k]) in heads) && Reached(recs, ids, nodes, over, x)
    ensures NodesHave(nodes, x) || IdsHave(recs, heads, over, x)
  {
    hide ChainHas, NodesHave;
    if !NodesHave(nodes, x) {
      var k :| k in ids && ChainHas(recs, ids[k], over, MAX_CHAIN, x);
      var i :| 0 <= i < |heads| && heads[i] == Some(ids[k]);
      assert heads[i].Some? && ChainHas(recs, heads[i].value, over, MAX_CHAIN, x);
    }
  }

  lemma ReachedOnly(recs: Store, ids: map<nat, nat>, nodes: seq<nat>, heads: seq<Option<nat>>, over: nat, x: int)
    requires forall i | 0 <= i < |heads| :: heads[i].Some? && heads[i].value in ids.Values
    requires NodesHave(nodes, x) || IdsHave(recs, heads, over, x)
    ensures Reached(recs, ids, nodes, over, x)
  {
    hide ChainHas, NodesHave;
    if !NodesHave(nodes, x) {
      var i :| 0 <= i < |heads| && heads[i].Some? && ChainHas(recs, heads[i].value, over, MAX_CHAIN, x);
      var k :| k in ids && ids[k] == heads[i].value;
      assert ChainHas(recs, ids[k], over, MAX_CHAIN, x);
    }
  }

  /** No byte below the frontier is lost: each is reached or free. */
  ghost predicate Swept(s: F.Space, recs: Store, ids: map<nat, nat>, nodes: seq<nat>, over: nat) {
    forall x | DATA_START <= x < s.frontier :: Reached(recs, ids, nodes, over, x) || InLists(s, x)
  }

  /** What the intervals of a pass over an id catalog with these heads cover. */
  ghost predicate Lists(l: seq<Ext>, s: F.Space, recs: Store, heads: seq<Option<nat>>, nodes: seq<nat>, over: nat) {
    forall x :: Covers(l, x) <==> NodesHave(nodes, x) || IdsHave(recs, heads, over, x) || InLists(s, x)
  }

  ghost predicate AllHoles(l: seq<Ext>, hi: nat) {
    forall x :: x in Holes(l, DATA_START, hi) <==> DATA_START <= x < hi && !Covers(l, x)
  }

  /** A second scan finds nothing. */
  lemma SweptScan(s: F.Space, s': F.Space, recs: Store, ids: map<nat, nat>, nodes: seq<nat>, over: nat,
      heads: seq<Option<nat>>, l: seq<Ext>)
    requires Swept(s, recs, ids, nodes, over) && forall k | k in ids :: Some(ids[k]) in heads
    requires Lists(l, s, recs, heads, nodes, over) && AllHoles(l, s.frontier)
        && Returned(s, s', Holes(l, DATA_START, s.frontier))
    ensures s'.live == s.live
  {
    hide Reached, Covers, IdsHave, NodesHave, Holes;
    forall x | DATA_START <= x < s.frontier ensures Covers(l, x) {
      if Reached(recs, ids, nodes, over, x) { HeadsReach(recs, ids, nodes, heads, over, x); }
    }
    forall x ensures x !in Holes(l, DATA_START, s.frontier) {}
    assert Holes(l, DATA_START, s.frontier) == iset{};
  }

  /** A scan leaves nothing behind. */
  lemma ScanSweeps(s: F.Space, s': F.Space, recs: Store, ids: map<nat, nat>, nodes: seq<nat>, over: nat,
      heads: seq<Option<nat>>, l: seq<Ext>)
    requires Lists(l, s, recs, heads, nodes, over) && AllHoles(l, s.frontier)
        && Returned(s, s', Holes(l, DATA_START, s.frontier))
    requires forall i | 0 <= i < |heads| :: heads[i].Some? && heads[i].value in ids.Values
    ensures Swept(s', recs, ids, nodes, over)
  {
    hide Reached, Covers, IdsHave, NodesHave, Holes;
    forall x | DATA_START <= x < s'.frontier ensures Reached(recs, ids, nodes, over, x) || InLists(s', x) {
      if NodesHave(nodes, x) || IdsHave(recs, heads, over, x) { ReachedOnly(recs, ids, nodes, heads, over, x); }
    }
  }

  lemma FlipSwept(s: F.Space, s': F.Space, ref: F.Bytes, recs: Store, ids: map<nat, nat>, nodes: seq<nat>, over: nat)
    requires Swept(s, recs, ids, nodes, over) && Flipped(s, s', ref, iset{})
    ensures Swept(s', recs, ids, nodes, over)
  {
    hide Reached;
  }

  lemma FlippedQuiet(s: F.Space, s': F.Space, ref: F.Bytes, r: F.Bytes)
    requires Flipped(s, s', ref, r)
    ensures s'.nodes == s.nodes && s'.data == s.data && s'.active == ref && s'.lo == s.lo && s'.live == s.live + r
    ensures s'.loser == s.active
  {}

  // ---------------------------------------------------------------- record chains

  /** The bytes used by a record and everything it descends from. */
  ghost predicate ChainHolds(st: Store, addr: nat, over: nat, n: nat, x: int)
    decreases n
  {
    && addr != 0 && n > 0 && addr in st
    && (UnitHas(st[addr], addr, over, x) || ChainHolds(st, Next(st[addr]), over, n - 1, x))
  }

  ghost predicate Lineage(st: Store, addr: nat, over: nat, x: int) { ChainHolds(st, addr, over, MAX_CHAIN, x) }

  /** No unit that a pass may move uses this byte. */
  ghost predicate Unmoved(recs: Store, ids: map<nat, nat>, over: nat, x: int) {
    forall m: nat | Known(recs, ids, m) && MayMove(recs[ids[m]]) :: !Holds(recs, ids, over, m, x)
  }

  /**
   A unit that stays put, with a readable chain whose bytes are all allocated, not waiting and not a moving
   unit's.
   */
  ghost predicate Sheltered(recs: Store, ids: map<nat, nat>, over: nat, owned: F.Bytes, frees: seq<Ext>, k: nat) {
    && Known(recs, ids, k) && !MayMove(recs[ids[k]]) && ChainOk(recs, ids[k], MAX_CHAIN)
    && forall x | Lineage(recs, ids[k], over, x) :: x in owned && !Covers(frees, x) && Unmoved(recs, ids, over, x)
  }

  ghost predicate Shelters(recs: Store, ids: map<nat, nat>, over: nat, owned: F.Bytes, frees: seq<Ext>,
      kept: set<nat>) {
    forall k | k in kept :: Sheltered(recs, ids, over, owned, frees, k)
  }

  /** The records of a chain are the same ones with the same stored bytes. */
  ghost predicate SameChain(d: Disk, st: Store, d': Disk, st': Store, addr: nat, n: nat)
    decreases n
  {
    addr == 0 || (
      && n > 0 && addr in st && addr in st' && st'[addr] == st[addr] && SameUnit(d, st[addr], d', st[addr])
      && SameChain(d, st, d', st', Next(st[addr]), n - 1))
  }

  ghost predicate SameLineage(d: Disk, st: Store, d': Disk, st': Store, addr: nat) {
    SameChain(d, st, d', st', addr, MAX_CHAIN)
  }

  /** Every sheltered unit still names the same head, and its whole chain reads as before. */
  ghost predicate SameLineages(d: Disk, recs: Store, ids: map<nat, nat>, d': Disk, recs': Store, ids': map<nat, nat>,
      kept: set<nat>) {
    forall k | k in kept :: k in ids && k in ids' && ids'[k] == ids[k] && SameLineage(d, recs, d', recs', ids[k])
  }

  /** All units and all sheltered chains keep their bytes. */
  ghost predicate SameAll(d: Disk, recs: Store, ids: map<nat, nat>, d': Disk, recs': Store, ids': map<nat, nat>,
      kept: set<nat>) {
    SameUnits(d, recs, ids, d', recs', ids') && SameLineages(d, recs, ids, d', recs', ids', kept)
  }

  /** The layout of all units, and of the chains that stay. */
  ghost predicate Secure(recs: Store, ids: map<nat, nat>, over: nat, owned: F.Bytes, frees: seq<Ext>, kept: set<nat>) {
    Laid(recs, ids, over, owned, frees) && Shelters(recs, ids, over, owned, frees, kept)
  }

  lemma SameUnitSame(d: Disk, d1: Disk, d2: Disk, u: Unit)
    requires SameUnit(d, u, d1, u) && SameUnit(d1, u, d2, u)
    ensures SameUnit(d, u, d2, u)
  {
    hide Frag;
  }

  lemma {:induction false} SameChainTrans(d: Disk, st: Store, d1: Disk, st1: Store, d2: Disk, st2: Store, addr: nat,
      n: nat)
    requires SameChain(d, st, d1, st1, addr, n) && SameChain(d1, st1, d2, st2, addr, n)
    ensures SameChain(d, st, d2, st2, addr, n)
    decreases n
  {
    hide SameUnit;
    if addr != 0 {
      SameUnitSame(d, d1, d2, st[addr]);
      SameChainTrans(d, st, d1, st1, d2, st2, Next(st[addr]), n - 1);
    }
  }

  lemma SameAllTrans(d: Disk, recs: Store, ids: map<nat, nat>, d1: Disk, recs1: Store, ids1: map<nat, nat>, d2: Disk,
      recs2: Store, ids2: map<nat, nat>, kept: set<nat>)
    requires SameAll(d, recs, ids, d1, recs1, ids1, kept) && SameAll(d1, recs1, ids1, d2, recs2, ids2, kept)
    ensures SameAll(d, recs, ids, d2, recs2, ids2, kept)
  {
    hide SameUnits, SameChain;
    SameUnitsTrans(d, recs, ids, d1, recs1, ids1, d2, recs2, ids2);
    forall k | k in kept ensures SameLineage(d, recs, d2, recs2, ids[k]) {
      SameChainTrans(d, recs, d1, recs1, d2, recs2, ids[k], MAX_CHAIN);
    }
  }

  lemma AllUnits(d: Disk, recs: Store, ids: map<nat, nat>, d': Disk, recs': Store, ids': map<nat, nat>, kept: set<nat>)
    requires SameAll(d, recs, ids, d', recs', ids', kept)
    ensures SameUnits(d, recs, ids, d', recs', ids')
  {}

  /** While records are only added off the chain and its bytes stay, the chain reads as before. */
  lemma {:induction false} ChainStays(d: Disk, st: Store, d': Disk, st': Store, over: nat, owned: F.Bytes, addr: nat,
      n: nat)
    requires ChainOk(st, addr, n) && SameOn(d, d', owned) && forall a | a in st && a in owned ::
        a in st' && st'[a] == st[a]
    requires forall x | ChainHolds(st, addr, over, n, x) :: x in owned
    ensures SameChain(d, st, d', st', addr, n) && ChainOk(st', addr, n)
    ensures forall x :: ChainHolds(st', addr, over, n, x) <==> ChainHolds(st, addr, over, n, x)
    decreases n
  {
    hide UnitHas, SameUnit, SameOn;
    if addr != 0 {
      HeadHeld(st[addr], addr, over);
      assert ChainHolds(st, addr, over, n, addr);
      forall x | UnitHas(st[addr], addr, over, x) ensures x in owned { assert ChainHolds(st, addr, over, n, x); }
      UnitStays(d, d', owned, st[addr], addr, over);
      forall x | ChainHolds(st, Next(st[addr]), over, n - 1, x) ensures x in owned
          { assert ChainHolds(st, addr, over, n, x); }
      ChainStays(d, st, d', st', over, owned, Next(st[addr]), n - 1);
    }
  }

  lemma HeadHeld(u: Unit, head: nat, over: nat)
    ensures UnitHas(u, head, over, head)
  {}

  lemma LineageStays(d: Disk, recs: Store, d': Disk, recs': Store, ids: map<nat, nat>, over: nat, owned: F.Bytes,
      frees: seq<Ext>, k: nat)
    requires Sheltered(recs, ids, over, owned, frees, k) && SameOn(d, d', owned)
    requires forall a | a in recs && a in owned :: a in recs' && recs'[a] == recs[a]
    ensures SameLineage(d, recs, d', recs', ids[k]) && ChainOk(recs', ids[k], MAX_CHAIN)
    ensures forall x :: Lineage(recs', ids[k], over, x) <==> Lineage(recs, ids[k], over, x)
  {
    hide ChainHolds, ChainOk, SameChain, Covers, Unmoved;
    forall x | ChainHolds(recs, ids[k], over, MAX_CHAIN, x) ensures x in owned
        { assert Lineage(recs, ids[k], over, x); }
    ChainStays(d, recs, d', recs', over, owned, ids[k], MAX_CHAIN);
    forall x ensures Lineage(recs', ids[k], over, x) <==> Lineage(recs, ids[k], over, x) {
      assert ChainHolds(recs', ids[k], over, MAX_CHAIN, x) <==> ChainHolds(recs, ids[k], over, MAX_CHAIN, x);
    }
  }

  /** All units and chains keep their bytes while writes land outside what they own. */
  lemma AllStay(recs: Store, ids: map<nat, nat>, over: nat, owned: F.Bytes, frees: seq<Ext>, kept: set<nat>, d: Disk,
      d': Disk)
    requires Secure(recs, ids, over, owned, frees, kept) && SameOn(d, d', owned)
    ensures SameAll(d, recs, ids, d', recs, ids, kept)
  {
    hide Laid, SameUnits, SameLineage, SameOn;
    UnitsStay(recs, ids, over, owned, frees, d, d');
    forall k | k in kept ensures SameLineage(d, recs, d', recs, ids[k]) {
      LineageStays(d, recs, d', recs, ids, over, owned, frees, k);
    }
  }

  lemma SecureGrows(recs: Store, ids: map<nat, nat>, over: nat, owned: F.Bytes, frees: seq<Ext>, kept: set<nat>,
      owned': F.Bytes)
    requires Secure(recs, ids, over, owned, frees, kept) && owned <= owned'
    ensures Secure(recs, ids, over, owned', frees, kept)
  {
    hide Laid, Lineage, Covers, Unmoved, ChainOk;
    LaidGrows(recs, ids, over, owned, frees, owned');
  }

  /** Repointing one unit leaves the bytes of every chain that stays alone. */
  lemma ShelterRepoint(recs: Store, ids: map<nat, nat>, over: nat, owned: F.Bytes, frees: seq<Ext>, k: nat, new_: nat,
      u': Unit, owned': F.Bytes, gone: seq<Ext>, j: nat, x: int)
    requires Laid(recs, ids, over, owned, frees) && Known(recs, ids, k) && MayMove(recs[ids[k]]) && owned <= owned'
    requires Succeeds(recs[ids[k]], ids[k], u', new_, over, owned, owned', gone)
    requires Sheltered(recs, ids, over, owned, frees, j) && Lineage(recs, ids[j], over, x)
    ensures x in owned' && !Covers(frees + gone, x) && Unmoved(recs[new_ := u'], ids[k := new_], over, x)
  {
    hide UnitHas, WellLaid, Covers, HeadHas, Lineage, ChainOk;
    var recs', ids' := recs[new_ := u'], ids[k := new_];
    assert !Holds(recs, ids, over, k, x);
    CoversBoth(frees, gone, x);
    forall m: nat | Known(recs', ids', m) && MayMove(recs'[ids'[m]]) ensures !Holds(recs', ids', over, m, x) {
      if m != k && Known(recs, ids, m) { HeadOf(recs, ids, over, m); }
      assert m == k ==> recs'[ids'[m]] == u';
    }
  }

  lemma SecureRepoint(recs: Store, ids: map<nat, nat>, over: nat, owned: F.Bytes, frees: seq<Ext>, kept: set<nat>,
      k: nat,
      new_: nat, u': Unit, owned': F.Bytes, gone: seq<Ext>, d: Disk, d': Disk)
    requires Secure(recs, ids, over, owned, frees, kept) && Known(recs, ids, k) && MayMove(recs[ids[k]])
        && owned <= owned'
    requires Succeeds(recs[ids[k]], ids[k], u', new_, over, owned, owned', gone) && WellLaid(u', new_, over)
    requires SameOn(d, d', owned) && SameUnit(d, recs[ids[k]], d', u')
    ensures Secure(recs[new_ := u'], ids[k := new_], over, owned', frees + gone, kept)
    ensures SameAll(d, recs, ids, d', recs[new_ := u'], ids[k := new_], kept)
  {
    hide Laid, UnitHas, WellLaid, Covers, HeadHas, SameUnit, SameUnits, SameLineage, Lineage, SameOn, ChainOk, Unmoved;
    var recs', ids' := recs[new_ := u'], ids[k := new_];
    RepointLaid(recs, ids, over, owned, frees, k, new_, u', owned', gone);
    FreshHead(recs[ids[k]], ids[k], u', new_, over, owned, owned', gone);
    UnitsRepointed(recs, ids, over, owned, frees, d, d', k, new_, u');
    forall j | j in kept
      ensures Sheltered(recs', ids', over, owned', frees + gone, j) && ids'[j] == ids[j]
      ensures SameLineage(d, recs, d', recs', ids[j])
    {
      assert Sheltered(recs, ids, over, owned, frees, j) && j != k;
      LineageStays(d, recs, d', recs', ids, over, owned, frees, j);
      HeadKept(recs, ids, over, owned, frees, j);
      forall x | Lineage(recs', ids'[j], over, x)
        ensures x in owned' && !Covers(frees + gone, x) && Unmoved(recs', ids', over, x)
      {
        ShelterRepoint(recs, ids, over, owned, frees, k, new_, u', owned', gone, j, x);
      }
    }
  }

  lemma HeadKept(recs: Store, ids: map<nat, nat>, over: nat, owned: F.Bytes, frees: seq<Ext>, j: nat)
    requires Laid(recs, ids, over, owned, frees) && Known(recs, ids, j)
    ensures ids[j] in owned
  {
    hide UnitHas, WellLaid, Covers;
    HeadOf(recs, ids, over, j);
  }

  lemma RecordAccounted(u: Unit, addr: nat, over: nat, x: int)
    requires UnitHas(u, addr, over, x) && Aligned(u.content) && Aligned(u.meta)
    ensures RecordHas(u, addr, over, x)
  {
    hide StreamHas, LocsHave, Aligned;
    if LocsHave(u.content, x) { StreamAccounted(u.content, x); }
    if LocsHave(u.meta, x) { StreamAccounted(u.meta, x); }
  }

  /** The accounting covers whole chains. */
  lemma {:induction false} ChainAccounted(st: Store, addr: nat, over: nat, n: nat, x: int)
    requires Gridded(st) && ChainHolds(st, addr, over, n, x)
    ensures ChainHas(st, addr, over, n, x)
    decreases n
  {
    hide UnitHas, RecordHas, Aligned;
    if UnitHas(st[addr], addr, over, x) { RecordAccounted(st[addr], addr, over, x); }
    else { ChainAccounted(st, Next(st[addr]), over, n - 1, x); }
  }

  lemma SecureAfterScan(recs: Store, ids: map<nat, nat>, over: nat, nodes: seq<nat>, heads: seq<Option<nat>>,
      s: F.Space,
      s': F.Space, l: seq<Ext>, kept: set<nat>)
    requires Secure(recs, ids, over, Ours(s, nodes), [], kept) && Catalogued(recs, ids, heads) && Gridded(recs)
        && F.Parts(s)
    requires Returned(s, s', Holes(l, DATA_START, s.frontier))
    requires forall x | IdsHave(recs, heads, over, x) :: Covers(l, x)
    ensures Secure(recs, ids, over, Ours(s', nodes), [], kept)
  {
    hide Laid, Covers, InHole, Gridded, NodesHave, ChainHas, ChainHolds, Unmoved, ChainOk;
    LaidAfterScan(recs, ids, over, nodes, heads, s, s', l);
    forall k, x | k in kept && Lineage(recs, ids[k], over, x) ensures x in Ours(s', nodes) {
      assert Sheltered(recs, ids, over, Ours(s, nodes), [], k);
      ChainAccounted(recs, ids[k], over, MAX_CHAIN, x);
      var i :| 0 <= i < |heads| && heads[i] == Some(ids[k]);
      assert ChainHas(recs, heads[i].value, over, MAX_CHAIN, x);
      NoHole(l, DATA_START, s.frontier, x);
    }
  }

  lemma SecureFlip(recs: Store, ids: map<nat, nat>, over: nat, nodes: seq<nat>, s: F.Space, s': F.Space, ref: F.Bytes,
      frees: seq<Ext>, kept: set<nat>)
    requires Secure(recs, ids, over, Ours(s, nodes), frees, kept) && Sited(s, nodes) && Waiting(frees)
    requires Flipped(s, s', ref, Cover(frees))
    ensures Secure(recs, ids, over, Ours(s', nodes), [], kept) && Sited(s', nodes)
  {
    hide Laid, Covers, NodesHave, Lineage, Unmoved, Waiting, Sited, ChainOk;
    FlipLaid(recs, ids, over, nodes, s, s', ref, frees);
    forall x ensures x in Cover(frees) <==> Covers(frees, x) {}
    forall x ensures !Covers([], x) { NoneCovered(x); }
  }

  /** Every byte in use: of a unit, of a chain that stays, or of a catalog node. */
  ghost predicate InUse(recs: Store, ids: map<nat, nat>, nodes: seq<nat>, over: nat, kept: set<nat>, x: int) {
    || NodesHave(nodes, x)
    || (exists k :: Known(recs, ids, k) && Holds(recs, ids, over, k, x))
    || (exists k :: k in kept && k in ids && Lineage(recs, ids[k], over, x))
  }

  /** What is in use is reached, allocated, and not waiting to be freed. */
  lemma InUseReached(recs: Store, ids: map<nat, nat>, nodes: seq<nat>, over: nat, kept: set<nat>, s: F.Space,
      frees: seq<Ext>, x: int)
    requires Secure(recs, ids, over, Ours(s, nodes), frees, kept) && Gridded(recs) && Sited(s, nodes) && F.Parts(s)
    requires InUse(recs, ids, nodes, over, kept, x)
    ensures Reached(recs, ids, nodes, over, x) && x in s.owned && x < s.frontier && !Covers(frees, x)
  {
    hide Covers, UnitHas, WellLaid, NodesHave, ChainHas, ChainHolds, Unmoved, ChainOk, Blocked, Aligned, OnGrid;
    if NodesHave(nodes, x) {
    } else if k :| Known(recs, ids, k) && Holds(recs, ids, over, k, x) {
      HeadKept(recs, ids, over, Ours(s, nodes), frees, k);
      FirstOfChain(recs, ids[k], over, x);
      ChainAccounted(recs, ids[k], over, MAX_CHAIN, x);
    } else {
      var k :| k in kept && k in ids && Lineage(recs, ids[k], over, x);
      assert Sheltered(recs, ids, over, Ours(s, nodes), frees, k);
      ChainAccounted(recs, ids[k], over, MAX_CHAIN, x);
    }
  }

  lemma FirstOfChain(st: Store, addr: nat, over: nat, x: int)
    requires addr != 0 && addr in st && UnitHas(st[addr], addr, over, x)
    ensures ChainHolds(st, addr, over, MAX_CHAIN, x)
  {
    hide UnitHas;
  }

  class Mover {
    const fa: F.Falloc
    const over: nat                  // record envelope overhead
    const seal: Unit -> seq<Byte>    // the record as written, padded to whole blocks
    const nodes: seq<nat>            // the catalogs' node pairs
    ghost const kept: set<nat>       // units whose whole record chains are watched
    var disk: Disk
    var recs: Store
    var ids: map<nat, nat>
    var frees: seq<Ext>              // released only after the header flip

    /** What the allocator has handed out for records and content. */
    ghost function Mine(): F.Bytes
      reads fa
    {
      Ours(fa.Abs(), nodes)
    }

    ghost predicate Steady()
      reads fa
    {
      fa.Valid() && Sited(fa.Abs(), nodes)
    }

    ghost predicate Valid()
      reads this, fa
    {
      && Steady() && Gridded(recs) && Waiting(frees) && Secure(recs, ids, over, Mine(), frees, kept)
      && forall u :: |seal(u)| == Envelope(u, over)
    }

    constructor (fa: F.Falloc, over: nat, seal: Unit -> seq<Byte>, nodes: seq<nat>, disk: Disk, recs: Store,
        ids: map<nat, nat>, ghost kept: set<nat>)
      requires fa.Valid() && Sited(fa.Abs(), nodes) && Gridded(recs)
      requires Secure(recs, ids, over, Ours(fa.Abs(), nodes), [], kept)
      requires forall u :: |seal(u)| == Envelope(u, over)
      ensures Valid() && this.fa == fa && this.over == over && this.nodes == nodes && this.disk == disk
      ensures this.recs == recs && this.ids == ids && this.kept == kept && frees == []
    {
      this.fa, this.over, this.seal, this.nodes, this.kept := fa, over, seal, nodes, kept;
      this.disk, this.recs, this.ids, frees := disk, recs, ids, [];
    }

    /** Reads every block of the source first, then writes them in one go. */
    method Copy(from: nat, to: nat, len: nat) returns (ok: bool, buf: seq<Byte>)
      requires len > 0
      modifies this`disk
      ensures ok <==> forall x | from <= x < from + F.RoundUp(len) :: x in old(disk)
      ensures !ok ==> disk == old(disk)
      ensures ok ==> |buf| == F.RoundUp(len) && disk == WriteAt(old(disk), to, buf)
                     && forall i | 0 <= i < |buf| :: ByteAt(old(disk), from + i) == Some(buf[i])
    {
      buf := [];
      while |buf| < len
        invariant |buf| % BLOCK == 0 && |buf| <= F.RoundUp(len)
        invariant forall i | 0 <= i < |buf| :: ByteAt(disk, from + i) == Some(buf[i])
        invariant forall x | from <= x < from + |buf| :: x in disk
        decreases F.RoundUp(len) - |buf|
      {
        var at := from + |buf|;
        var blk := ReadBlock(disk, at);
        if blk.None? { return false, buf; }
        forall i | |buf| <= i < |buf| + BLOCK ensures ByteAt(disk, from + i) == Some((buf + blk.value)[i]) {
          assert ByteAt(disk, at + (i - |buf|)) == Some(blk.value[i - |buf|]);
        }
        buf := buf + blk.value;
      }
      disk := WriteAt(disk, to, buf);
      ok := true;
    }

    /** One fragment: the first fit when that lies strictly below it, else where it is. */
    method MoveOne(l: Loc) returns (ok: bool, l': Loc)
      requires Steady()
      modifies this`disk, fa
      ensures Steady() && Kept(old(fa.Abs()), fa.Abs()) && SameOn(old(disk), disk, old(fa.owned))
      ensures ok && l' == l ==> fa.Abs() == old(fa.Abs()) && fa.live == old(fa.live) && disk == old(disk)
      ensures ok && l' != l ==> Moved(old(disk), l, old(Mine()), disk, l', Mine()) && l'.addr % BLOCK == 0
      ensures Cover(fa.live) <= old(Cover(fa.live)) && (ok ==> Settled(fa.live, l'))
      ensures Settled(old(fa.live), l) ==> ok && l' == l
      ensures !ok ==> Unreadable(old(disk), l)
    {
      hide F.Inv, F.Parts, F.Allocated, F.Apart, Extents.Canonical, Cover, Range, Fits, FirstFit, F.RoundUp, SameOn,
          WriteAt, Bytes, Sited, Ours;
      ghost var s, free := fa.Abs(), fa.live;
      SameSelf(disk, fa.owned);
      if l.Hole() || l.len < BLOCK { return true, l; }
      var fit := fa.Peek(l.len, F.Live);
      FitFacts(s, free, l, fit);
      if fit == 0 || fit >= l.addr { return true, l; }
      var got := fa.Alloc(l.len, F.Live);
      FirstFitUnique(free, F.RoundUp(l.len), got, fit);
      FreshSpace(s, fa.Abs(), nodes, free, got, F.RoundUp(l.len));
      MovedSettles(free, fa.live, Loc(got, l.len));
      var buf;
      ok, buf := Copy(l.addr, got, l.len);
      l' := Loc(got, l.len);
      if !ok {
        ghost var x :| l.addr <= x < l.addr + F.RoundUp(l.len) && x !in old(disk);
        MissingBlock(old(disk), l, x);
      }
      if ok {
        WriteElsewhere(old(disk), got, buf, s.owned);
        CopiedBytes(old(disk), disk, l.addr, got, F.RoundUp(l.len), buf);
      }
    }

    /** Every fragment of a unit; fails only when a block cannot be read. */
    method MoveFragments(locs: seq<Loc>) returns (ok: bool, r: seq<Loc>, gone: seq<Ext>)
      requires Steady() && Disjoint(locs) && forall j | 0 <= j < |locs| :: InOwned(locs[j], Mine())
      modifies this`disk, fa
      ensures Steady() && Kept(old(fa.Abs()), fa.Abs()) && SameOn(old(disk), disk, old(fa.owned))
      ensures ok ==> Moving(old(disk), locs, old(Mine()), disk, r, Mine(), |locs|) && gone == Vacated(locs, r)
      ensures ok && Aligned(Some(locs)) ==> Aligned(Some(r))
      ensures ok && gone == [] ==>
          fa.Abs() == old(fa.Abs()) && fa.live == old(fa.live) && disk == old(disk) && r == locs
      ensures Cover(fa.live) <= old(Cover(fa.live)) && (ok ==> forall j | 0 <= j < |r| :: Settled(fa.live, r[j]))
      ensures (forall j | 0 <= j < |locs| :: Settled(old(fa.live), locs[j])) ==> ok && gone == []
      ensures !ok ==> exists j :: 0 <= j < |locs| && Unreadable(disk, locs[j])
    {
      hide F.Falloc.Valid, Settled, Moved, Moving, InOwned, SameOn, LocHas, Vacated, F.RoundUp, Cover,
          Extents.Canonical, Sited, Ours;
      r, gone := [], [];
      ghost var d, owned := disk, Mine();
      SameSelf(d, fa.owned);
      MovingStart(d, locs, owned);
      for i := 0 to |locs|
        invariant Steady() && Kept(old(fa.Abs()), fa.Abs()) && Moving(d, locs, owned, disk, r, Mine(), i) && |r| == i
        invariant SameOn(d, disk, old(fa.owned)) && (Aligned(Some(locs)) ==> Aligned(Some(r)))
        invariant gone == Vacated(locs[..i], r)
        invariant gone == [] ==> fa.Abs() == old(fa.Abs()) && fa.live == old(fa.live) && disk == d && r == locs[..i]
        invariant Cover(fa.live) <= old(Cover(fa.live)) && forall j | 0 <= j < i :: Settled(fa.live, r[j])
        invariant (forall j | 0 <= j < |locs| :: Settled(old(fa.live), locs[j])) ==> gone == []
      {
        ghost var s1, d1, owned1, r1, free := fa.Abs(), disk, Mine(), r, fa.live;
        assert Extents.Canonical(free) by { ListsOf(fa); }
        var l';
        ok, l' := MoveOne(locs[i]);
        AllSettled(free, fa.live, r1);
        SameOnTrans(d, d1, disk, old(fa.owned), s1.owned);
        if !ok {
          OwnedStill(d, locs, owned, d1, r, s1, nodes, i);
          UnreadableSame(d1, disk, s1.owned, locs[i]);
          return;
        }
        r := r + [l'];
        if l' != locs[i] { gone := gone + [Ext(locs[i].addr, F.RoundUp(locs[i].len))]; }
        VacatedGrows(locs, r1, i, l');
        AlignedGrows(locs, r1, i, l');
        if l' == locs[i] { KeepFragment(d, locs, owned, disk, r1, Mine(), i); }
        else {
          SameOnOurs(d1, disk, s1, nodes);
          MoveFragment(d, locs, owned, d1, r1, owned1, i, l', disk, Mine());
        }
      }
      assert locs[..|locs|] == locs;
      ok := true;
    }

    /** Writes the successor record on fresh space. */
    method WriteRecord(u: Unit) returns (addr: nat)
      requires Steady() && |seal(u)| == Envelope(u, over)
      modifies this`disk, this`recs, fa
      ensures Steady() && Kept(old(fa.Abs()), fa.Abs()) && SameOn(old(disk), disk, old(fa.owned))
          && Cover(fa.live) <= old(Cover(fa.live))
      ensures addr == 0 ==> fa.Abs() == old(fa.Abs()) && recs == old(recs) && disk == old(disk)
      ensures addr == 0 ==> fa.frontier + F.RoundUp(over + u.len) > fa.cap
      ensures addr != 0 ==>
          recs == old(recs)[addr := u] && addr % BLOCK == 0 && F.Apart(Range(addr, Envelope(u, over)), old(Mine()))
                            && Mine() == old(Mine()) + Range(addr, Envelope(u, over))
    {
      hide F.Inv, F.Allocated, F.Apart, Extents.Canonical, Cover, Range, Fits, FirstFit, F.RoundUp, SameOn, WriteAt,
          Sited, Ours;
      SameSelf(disk, fa.owned);
      ghost var s, free := fa.Abs(), fa.live;
      addr := fa.Alloc(over + u.len, F.Live);
      if addr == 0 { return; }
      FreshSpace(s, fa.Abs(), nodes, free, addr, Envelope(u, over));
      WriteElsewhere(disk, addr, seal(u), s.owned);
      disk := WriteAt(disk, addr, seal(u));
      recs := recs[addr := u];
    }

    /**
     Relocates one unit: its bytes and everybody else's are unchanged, whether or not it succeeds; an idle unit
     stays.
     */
    method CompactUnit(k: nat) returns (ok: bool, moved: bool)
      requires Valid()
      modifies this, fa
      ensures Valid() && SameAll(old(disk), old(recs), old(ids), disk, recs, ids, kept)
      ensures Kept(old(fa.Abs()), fa.Abs()) && SameOn(old(disk), disk, old(fa.owned))
      ensures !moved ==> ids == old(ids) && recs == old(recs) && frees == old(frees)
      ensures moved ==> ok && Known(old(recs), old(ids), k) && recs[ids[k]].content != old(recs[ids[k]]).content
      ensures moved ==> frees == old(frees) + (Vacated(old(recs[ids[k]]).content.value, recs[ids[k]].content.value)
                                               + [Ext(old(ids[k]), Envelope(old(recs[ids[k]]), over))])
      ensures ok && !moved ==> fa.Abs() == old(fa.Abs()) && fa.live == old(fa.live) && disk == old(disk)
      ensures Cover(fa.live) <= old(Cover(fa.live)) && (ok ==> Idle(recs, ids, fa.live, k))
      ensures old(Idle(recs, ids, fa.live, k)) ==> !moved
      ensures moved ==>
        var u := old(recs[ids[k]]);
        u.content.Some? && u.content.value != [] && u.parent.None? && !u.strained && u.suite && !u.pinned
      ensures ok && k in ids && ids[k] in recs ==>
        var u := recs[ids[k]];
        u.content.Some? && u.content.value != [] && u.parent.None? && !u.strained && u.suite && !u.pinned ==>
          forall j, a: nat | 0 <= j < |u.content.value| && u.content.value[j].len >= 4096
              && FirstFit(fa.live, F.RoundUp(u.content.value[j].len), a) :: a >= u.content.value[j].addr
      ensures ok && k in old(ids) && old(ids[k]) in old(recs) ==>
        var u := old(recs[ids[k]]);
        u.content.Some? && u.content.value != [] && u.parent.None? && !u.strained && u.suite && !u.pinned ==>
          forall j, a: nat | !moved && 0 <= j < |u.content.value| && u.content.value[j].len >= 4096
              && FirstFit(old(fa.live), F.RoundUp(u.content.value[j].len), a) :: a >= u.content.value[j].addr
      ensures !ok ==> Stuck(disk, recs, ids, over, fa.cap - fa.frontier, k)
      ensures forall m: nat | m != k && Known(recs, ids, m) ::
          Known(old(recs), old(ids), m) && recs[ids[m]] == old(recs)[old(ids)[m]]
    {
      hide F.Falloc.Valid, Laid, Shelters, SameAll, Settled, Moving, SameOn, Disjoint, InOwned, F.Apart, Vacated, Range,
          F.RoundUp, Cover, Extents.Canonical,
           Sited, Ours, Gridded, Waiting, Aligned;
      moved := false;
      ghost var s, d, owned := fa.Abs(), disk, Mine();
      SameSelf(disk, owned);
      SameSelf(disk, s.owned);
      AllStay(recs, ids, over, owned, frees, kept, d, d);
      if k !in ids { return true, false; }
      var head := ids[k];
      if !Readable(recs, head) { return false, false; }
      var u := recs[head];
      if !Eligible(u) { return true, false; }
      UnitOwns(recs, ids, over, owned, frees, k);
      GridOf(recs, head);
      var r, gone;
      ok, r, gone := MoveFragments(u.content.value);
      OursGrows(s, fa.Abs(), nodes);
      SameOnOurs(d, disk, s, nodes);
      AllStay(recs, ids, over, owned, frees, kept, d, disk);
      SecureGrows(recs, ids, over, owned, frees, kept, Mine());
      if !ok { return; }
      if gone == [] { IdlePlain(recs, ids, fa.live, k); return; }
      assert Extents.Canonical(fa.live) by { ListsOf(fa); }
      ghost var free := fa.live;
      if !RewriteFits(u, over) { return false, false; }
      ghost var s1, d1, owned1 := fa.Abs(), disk, Mine();
      var u' := u.(content := Some(r));
      ghost var recs0 := recs;
      var new_ := WriteRecord(u');
      SameOnTrans(d, d1, disk, s.owned, s1.owned);
      SameOnOurs(d, disk, s, nodes);
      AllStay(recs0, ids, over, owned, frees, kept, d, disk);
      if new_ == 0 { return false, false; }
      gone := gone + [Ext(head, Envelope(u, over))];
      SameOnOurs(d1, disk, s1, nodes);
      SuccessorLaid(d, u, head, over, owned, d1, r, owned1, new_, Mine());
      GoneWaits(u, head, over, d, owned, d1, r, owned1, frees);
      MovingOn(d, u.content.value, owned, d1, r, owned1, disk, Mine());
      UnitMoves(d, disk, owned, u, head, over, r, Mine());
      SecureRepoint(recs0, ids, over, owned, frees, kept, k, new_, u', Mine(), gone, d, disk);
      GriddedMore(recs0, head, new_, r);
      FreshHead(u, head, u', new_, over, owned, Mine(), gone);
      OthersKept(recs0, ids, over, owned, frees, k, new_, u');
      AllSettled(free, fa.live, r);
      frees := frees + gone;
      ids := ids[k := new_];
      moved := true;
      VacatedSelf(u.content.value);
      IdlePlain(recs, ids, fa.live, k);
    }

    lemma Unchanged()
      requires Valid()
      ensures SameAll(disk, recs, ids, disk, recs, ids, kept)
    {
      hide Secure, SameAll, Steady;
      SameSelf(disk, Mine());
      AllStay(recs, ids, over, Mine(), frees, kept, disk, disk);
    }

    lemma AllocatorOf()
      requires Valid()
      ensures Extents.Canonical(fa.live)
    {}

    /** Compacts each listed unit in turn, stopping at the first failure. */
    method Pass(units: seq<nat>) returns (ok: bool, moved: bool)
      requires Valid()
      modifies this, fa
      ensures Valid() && SameAll(old(disk), old(recs), old(ids), disk, recs, ids, kept)
      ensures Kept(old(fa.Abs()), fa.Abs()) && SameOn(old(disk), disk, old(fa.owned))
      ensures moved ==> PassHeight(recs, ids, units) < PassHeight(old(recs), old(ids), units)
      ensures !moved ==> ids == old(ids) && recs == old(recs) && frees == old(frees)
      ensures ok && !moved ==> fa.Abs() == old(fa.Abs()) && disk == old(disk)
      ensures ok ==> forall i | 0 <= i < |units| :: Idle(recs, ids, fa.live, units[i])
      ensures old(forall i | 0 <= i < |units| :: Idle(recs, ids, fa.live, units[i])) ==> !moved
      ensures !ok ==> exists i :: 0 <= i < |units| && Stuck(disk, recs, ids, over, fa.cap - fa.frontier, units[i])
    {
      hide Stuck, Mover.Valid, SameAll, PassHeight, Idle, Cover, Known, SameOn;
      ok, moved := true, false;
      Unchanged();
      SameSelf(disk, fa.owned);
      for i := 0 to |units|
        invariant Valid() && SameAll(old(disk), old(recs), old(ids), disk, recs, ids, kept)
        invariant Kept(old(fa.Abs()), fa.Abs()) && SameOn(old(disk), disk, old(fa.owned))
        invariant if moved then PassHeight(recs, ids, units) < PassHeight(old(recs), old(ids), units)
                  else ids == old(ids) && recs == old(recs) && frees == old(frees) && disk == old(disk)
                       && fa.Abs() == old(fa.Abs()) && fa.live == old(fa.live)
        invariant forall j | 0 <= j < i :: Idle(recs, ids, fa.live, units[j])
        invariant old(forall i | 0 <= i < |units| :: Idle(recs, ids, fa.live, units[i])) ==> !moved
        invariant ok
      {
        ghost var d1, held1, recs1, ids1, free := disk, fa.owned, recs, ids, fa.live;
        AllocatorOf();
        var one;
        ok, one := CompactUnit(units[i]);
        SameAllTrans(old(disk), old(recs), old(ids), d1, recs1, ids1, disk, recs, ids, kept);
        SameOnTrans(old(disk), d1, disk, old(fa.owned), held1);
        AllUnits(d1, recs1, ids1, disk, recs, ids, kept);
        if one { PassFalls(d1, recs1, ids1, disk, recs, ids, units, units[i]); }
        moved := moved || one;
        if !ok { return; }
        forall j | 0 <= j < i + 1 ensures Idle(recs, ids, fa.live, units[j]) {
          if units[j] != units[i] { StillIdle(recs1, ids1, free, recs, ids, fa.live, units[j]); }
        }
      }
    }

    /** No listed unit has anywhere lower to go, and no byte is lost. */
    ghost predicate Stable(units: seq<nat>)
      reads this, fa
    {
      Swept(fa.Abs(), recs, ids, nodes, over) && forall i | 0 <= i < |units| :: Idle(recs, ids, fa.live, units[i])
    }

    /**
     The whole pass: account, sort, free the gaps, compact.  Until the flip the old layout is complete: same
     bytes, still allocated.
     */
    method Run(heads: seq<Option<nat>>, units: seq<nat>) returns (ok: bool, moved: bool, ghost l: seq<Ext>)
      requires Valid() && frees == [] && Catalogued(recs, ids, heads)
      requires fa.Abs().nodes == iset{} && fa.Abs().data == iset{} && fa.lo <= DATA_START
      requires forall x :: x in fa.active ==> NodesHave(nodes, x) || IdsHave(recs, heads, over, x)
      modifies this, fa
      ensures Valid() && SameAll(old(disk), old(recs), old(ids), disk, recs, ids, kept) && Calm(old(fa.Abs()), fa.Abs())
      ensures SameAll(old(disk), old(recs), old(ids), disk, old(recs), old(ids), kept)
          && Secure(old(recs), old(ids), over, Mine(), [], kept)
      ensures ok ==> IdsOk(old(recs), heads)
      ensures moved ==> PassHeight(recs, ids, units) < PassHeight(old(recs), old(ids), units)
      ensures !moved ==> ids == old(ids) && recs == old(recs) && frees == []
      ensures ok && !moved ==>
          disk == old(disk) && Returned(old(fa.Abs()), fa.Abs(), Holes(l, DATA_START, old(fa.frontier)))
      ensures ok ==> forall i | 0 <= i < |units| :: Idle(recs, ids, fa.live, units[i])
      ensures ok ==> Lists(l, old(fa.Abs()), old(recs), heads, nodes, over) && AllHoles(l, old(fa.frontier))
      ensures (forall k | k in old(ids) :: Some(old(ids)[k]) in heads) && old(Stable(units)) ==> !moved
      ensures !ok && IdsOk(old(recs), heads) ==>
          exists i :: 0 <= i < |units| && Stuck(disk, recs, ids, over, fa.cap - fa.frontier, units[i])
    {
      hide Stuck, F.Inv, F.Parts, Laid, Shelters, SameAll, PassHeight, Idle, Covers, Cover, Extents.Canonical, IdsHave,
          NodesHave,
          Catalogued, Pushed, Holes,
           SameOn, Sited, Ours, Waiting, EvenFrom, Swept;
      moved, l := false, [];
      Unchanged();
      ghost var s, free := fa.Abs(), fa.live;
      var ivals := NodeIntervals(nodes);
      ghost var pairs := ivals;
      ok, ivals := AccountIds(recs, heads, over, ivals);
      if !ok { return; }
      ghost var reached := ivals;
      ReachedEven(s, nodes, recs, pairs, reached);
      ivals := ivals + fa.head + fa.live + fa.tail;
      AllAccounted(s, nodes, heads, recs, over, reached, fa.head, fa.live, fa.tail);
      AllEven(s, nodes, reached, fa.head, fa.live, fa.tail);
      l := ivals;
      GapScan(fa, ivals);
      PartsOf(s);
      SecureAfterScan(recs, ids, over, nodes, heads, s, fa.Abs(), ivals, kept);
      ScanSited(s, fa.Abs(), nodes, ivals);
      ghost var owned, m := Mine(), fa.Abs();
      if (forall k | k in ids :: Some(ids[k]) in heads) && old(Stable(units)) {
        SweptScan(s, m, recs, ids, nodes, over, heads, l);
        forall i | 0 <= i < |units| ensures Idle(recs, ids, fa.live, units[i])
            { StillIdle(recs, ids, free, recs, ids, fa.live, units[i]); }
      }
      ok, moved := Pass(units);
      SameOnOurs(old(disk), disk, m, nodes);
      AllStay(old(recs), old(ids), over, owned, [], kept, old(disk), disk);
      OursGrows(m, fa.Abs(), nodes);
      SecureGrows(old(recs), old(ids), over, owned, [], kept, Mine());
    }

    /** What the root about to be published references: everything reached and allocated that is not given up. */
    ghost function Root(): F.Bytes
      reads this, fa
    {
      iset x | Reached(recs, ids, nodes, over, x) && x in fa.owned && x < fa.frontier && !Covers(frees, x)
    }

    /** The new root references everything in use. */
    lemma RootHolds(x: int)
      requires Valid() && InUse(recs, ids, nodes, over, kept, x)
      ensures x in Root()
    {
      hide Secure, InUse, Reached, Sited, Gridded, Waiting, Ours;
      PartsOf(fa.Abs());
      InUseReached(recs, ids, nodes, over, kept, fa.Abs(), frees, x);
    }

    /** After the header flip: publish the new root, then free every extent that waited for it. */
    method Release()
      requires Valid() && fa.Abs().nodes == iset{} && fa.Abs().data == iset{}
      modifies this`frees, fa
      ensures Valid() && frees == [] && Flipped(old(fa.Abs()), fa.Abs(), old(Root()), Cover(old(frees)))
      ensures forall x | InUse(recs, ids, nodes, over, kept, x) :: x in fa.active
    {
      hide F.Inv, F.Published, F.Publishable, F.Freed, F.Apart, F.RoundUp, Extents.Canonical, Cover, Covers, Range,
          Laid, Shelters, Sited, Ours, Waiting, Flipped, Gridded, Reached, InUse;
      ghost var ref := Root();
      forall x | InUse(recs, ids, nodes, over, kept, x) ensures x in ref { RootHolds(x); }
      assert F.Publishable(fa.Abs(), ref) by { NothingDeferred(fa.Abs(), ref); }
      ghost var s := fa.Abs();
      FreesOwned(recs, ids, over, nodes, s, frees);
      fa.Publish(ref);
      FlipStart(s, fa.Abs(), ref);
      assert frees[..0] == [];
      for i := 0 to |frees|
        invariant fa.Valid() && frees == old(frees) && Flipped(s, fa.Abs(), ref, Cover(frees[..i]))
      {
        ghost var m := fa.Abs();
        FlipNext(s, m, ref, frees, i);
        fa.Free(frees[i].addr, frees[i].len, F.Live);
        ghost var m1 := fa.Abs();
        NotableNow(m, m1, frees[i].addr, frees[i].len);
        fa.NoteFreed(frees[i].addr, frees[i].len);
        FlipMore(s, m, m1, fa.Abs(), ref, Cover(frees[..i]), frees[i].addr, frees[i].len);
      }
      assert frees[..|frees|] == frees;
      SecureFlip(recs, ids, over, nodes, s, fa.Abs(), ref, frees, kept);
      FlippedQuiet(s, fa.Abs(), ref, Cover(frees));
      frees := [];
      assert Waiting(frees) by { NoneWaits(); }
    }

    /**
     Between passes: nothing waits, nothing is deferred, and the published root references everything in use and
     nothing the catalogs do not reach.
     */
    ghost predicate Quiet()
      reads this, fa
    {
      && Valid() && frees == [] && fa.Abs().nodes == iset{} && fa.Abs().data == iset{} && fa.lo <= DATA_START
      && (forall x :: x in fa.active ==> Reached(recs, ids, nodes, over, x))
      && (forall x | InUse(recs, ids, nodes, over, kept, x) :: x in fa.active)
    }

    /** Nothing in use, and nothing the other header slot still references, is ever handed to the device for discard. */
    lemma NeverDiscarded(x: int)
      requires Quiet() && (InUse(recs, ids, nodes, over, kept, x) || x in fa.loser)
      ensures x !in fa.Abs().ok && (InUse(recs, ids, nodes, over, kept, x) ==> x in fa.owned && x !in fa.Abs().pend)
    {
      hide Secure, InUse, Reached, Sited, Gridded, Waiting;
    }

    lemma QuietUnchanged()
      requires Quiet()
      ensures SameAll(disk, recs, ids, disk, recs, ids, kept)
    {
      hide Mover.Valid, SameAll;
      Unchanged();
    }

    /** Why a pass may fail: a record chain that cannot be read to its end, or a listed unit that is stuck. */
    ghost predicate Hindered(units: seq<nat>)
      reads this, fa
    {
      || (exists k :: k in ids && !ChainOk(recs, ids[k], MAX_CHAIN))
      || (exists i :: 0 <= i < |units| && Stuck(disk, recs, ids, over, fa.cap - fa.frontier, units[i]))
    }

    /** What is stuck after an abandoned pass is stuck in the layout that stays in force. */
    lemma HinderedStill(units: seq<nat>, recs0: Store, ids0: map<nat, nat>, d0: Disk)
      requires SameAll(d0, recs0, ids0, disk, recs, ids, kept) && SameAll(d0, recs0, ids0, disk, recs0, ids0, kept)
      requires exists i :: 0 <= i < |units| && Stuck(disk, recs, ids, over, fa.cap - fa.frontier, units[i])
      ensures exists i :: 0 <= i < |units| && Stuck(disk, recs0, ids0, over, fa.cap - fa.frontier, units[i])
    {
      hide Stuck, SameLineages, SameUnits;
      var i :| 0 <= i < |units| && Stuck(disk, recs, ids, over, fa.cap - fa.frontier, units[i]);
      StuckSame(d0, recs0, ids0, disk, recs, ids, over, fa.cap - fa.frontier, units[i]);
      StuckSame(d0, recs0, ids0, disk, recs0, ids0, over, fa.cap - fa.frontier, units[i]);
      assert Stuck(disk, recs0, ids0, over, fa.cap - fa.frontier, units[i]);
    }

    /** One maintenance pass with its flip, or, if it fails, with nothing published and the old layout in force. */
    method Cycle(units: seq<nat>) returns (ok: bool, moved: bool)
      requires Quiet()
      modifies this, fa
      ensures Quiet() && SameAll(old(disk), old(recs), old(ids), disk, recs, ids, kept)
      ensures moved ==> ok && PassHeight(recs, ids, units) < PassHeight(old(recs), old(ids), units)
      ensures !moved ==> ids == old(ids) && recs == old(recs)
      ensures ok && !moved ==> Stable(units)
      ensures old(Stable(units)) ==> !moved
      ensures ok ==> fa.loser == old(fa.active)
      ensures !ok ==> Hindered(units)
    {
      hide Stuck, ChainOk, F.Inv, Laid, Shelters, SameAll, PassHeight, Idle, Covers, Cover, Extents.Canonical, IdsHave,
          NodesHave,
          Sited, Ours,
          Waiting, Flipped, Gridded,
           Reached, Holes, Returned, F.Publishable, Swept, Lists, AllHoles;
      var recs0, ids0 := recs, ids;
      fa.Begin();
      SitedBegun(old(fa.Abs()), nodes);
      BegunSwept(old(fa.Abs()), recs, ids, nodes, over);
      ghost var s0 := fa.Abs();
      var heads := Heads(ids);
      forall x | x in fa.active ensures NodesHave(nodes, x) || IdsHave(recs, heads, over, x)
          { HeadsReach(recs, ids, nodes, heads, over, x); }
      ghost var l;
      ok, moved, l := Run(heads, units);
      if !ok {
        ghost var s := fa.Abs();
        if IdsOk(recs0, heads) { HinderedStill(units, recs0, ids0, old(disk)); } else
            { BrokenHead(recs0, ids0, heads); }
        fa.Abort();
        SitedAborted(s, nodes);
        recs, ids, frees, moved := recs0, ids0, [], false;
        assert Waiting(frees) by { NoneWaits(); }
        return;
      }
      ghost var s, free := fa.Abs(), fa.live;
      assert Extents.Canonical(free) by { ListsOf(fa); }
      ghost var was := frees;
      ghost var ref := Root();
      Release();
      FlippedQuiet(s, fa.Abs(), ref, Cover(was));
      if !moved {
        F.NothingCovered();
        ScanSweeps(s0, s, recs, ids, nodes, over, heads, l);
        FlipSwept(s, fa.Abs(), ref, recs, ids, nodes, over);
        forall i | 0 <= i < |units| ensures Idle(recs, ids, fa.live, units[i]) {
          StillIdle(recs, ids, free, recs, ids, fa.live, units[i]);
        }
      }
    }

    /** Repeated passes come to rest: all bytes as they were, and a further pass would move nothing. */
    method Converge(units: seq<nat>) returns (ok: bool)
      requires Quiet()
      modifies this, fa
      ensures Quiet() && SameAll(old(disk), old(recs), old(ids), disk, recs, ids, kept)
      ensures if ok then Stable(units) else Hindered(units)
    {
      hide Mover.Hindered, Mover.Quiet, Mover.Stable, SameAll, PassHeight;
      QuietUnchanged();
      var moved := true;
      ok := true;
      while ok && moved
        invariant Quiet() && SameAll(old(disk), old(recs), old(ids), disk, recs, ids, kept)
        invariant ok && !moved ==> Stable(units)
        invariant !ok ==> Hindered(units)
        decreases PassHeight(recs, ids, units), moved
      {
        ghost var d1, recs1, ids1 := disk, recs, ids;
        ok, moved := Cycle(units);
        SameAllTrans(old(disk), old(recs), old(ids), d1, recs1, ids1, disk, recs, ids, kept);
      }
    }
  }
}
