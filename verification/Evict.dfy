/**
 Retention of superseded blocks in the eviction tail (kernel/sfs_evict.c:46-61,
 196-401 and 403-412): time buckets decided by sorting, and the pressure pass.
 */
module Evict {
  import opened Base
  import F = Falloc

  const S64_MIN: int := -0x8000_0000_0000_0000
  const S64_MAX: int := 0x7FFF_FFFF_FFFF_FFFF

  type S64 = x: int | S64_MIN <= x <= S64_MAX

  const HOUR: int := 3600
  const DAY: int := 86400
  const MONTH: int := 30 * 86400
  const YEAR: int := 365 * 86400

  /** A tail block found by the scan, in ascending address order. */
  datatype Block = Block(addr: nat, uuid: seq<Byte>, frag: nat, ts: S64, pins: nat, total: nat)

  // ---------------------------------------------------------------- buckets

  /** C division: toward zero. */
  function TruncDiv(a: int, b: int): int
    requires b > 0
  {
    if a >= 0 then a / b else -((-a) / b)
  }

  /** Saturating subtraction: exact inside the 64-bit range, clamped outside. */
  function SatSub(a: S64, b: S64): (r: S64)
    ensures r == if a - b < S64_MIN then S64_MIN else if a - b > S64_MAX then S64_MAX else a - b
  {
    if b > 0 && a < S64_MIN + b then S64_MIN
    else if b < 0 && a > S64_MAX + b then S64_MAX
    else a - b
  }

  datatype Bucket = Bucket(band: nat, slot: int)

  /** Full resolution for an hour, then hours, days, months and years. */
  function BucketOf(now: S64, ts: S64): Bucket {
    var age := SatSub(now, ts);
    if age < HOUR then Bucket(0, ts)
    else if age < 24 * HOUR then Bucket(1, TruncDiv(ts, HOUR))
    else if age < 14 * DAY then Bucket(2, TruncDiv(ts, DAY))
    else if age < YEAR then Bucket(3, TruncDiv(ts, MONTH))
    else Bucket(4, TruncDiv(ts, YEAR))
  }

  /** Truncation merges the two slots around the epoch: slot zero of any band is twice as wide as the others. */
  lemma EpochSlotIsDouble(ts: int, width: int)
    requires width > 0
    ensures TruncDiv(ts, width) == 0 <==> -width < ts < width
  {
    if ts >= 0 { SlotZero(ts, width); } else { SlotZero(-ts, width); }
  }

  lemma SlotZero(ts: nat, width: int)
    requires width > 0
    ensures ts / width == 0 <==> ts < width
  {
    if ts >= width {
      assert ts == width * (ts / width) + ts % width;
    }
  }

  // ---------------------------------------------------------------- who competes with whom

  ghost predicate Rivals(now: S64, a: Block, b: Block) {
    a.uuid == b.uuid && a.frag == b.frag && BucketOf(now, a.ts) == BucketOf(now, b.ts)
  }

  /** Newer wins; of equally new ones the first in scan order. */
  predicate Beats(ti: S64, i: nat, tj: S64, j: nat) { ti > tj || (ti == tj && i < j) }

  predicate Competes(b: Block, usePins: bool) { !(usePins && b.pins > 0) }

  /** Block i loses its bucket to some other competing block. */
  ghost predicate Loses(l: seq<Block>, now: S64, usePins: bool, i: nat)
    requires i < |l|
  {
    Competes(l[i], usePins) &&
    exists j :: 0 <= j < |l| && Competes(l[j], usePins) && Rivals(now, l[j], l[i]) && Beats(l[j].ts, j, l[i].ts, i)
  }

  /** Truncated quotients agree: the same slot on one side of the epoch, or both within one width of it. */
  lemma TruncSame(x: int, y: int, w: int)
    requires w > 0
    ensures x >= 0 && y >= 0 ==> (TruncDiv(x, w) == TruncDiv(y, w) <==> x / w == y / w)
    ensures x <= 0 && y <= 0 ==> (TruncDiv(x, w) == TruncDiv(y, w) <==> (-x) / w == (-y) / w)
    ensures x < 0 < y || y < 0 < x ==> (TruncDiv(x, w) == TruncDiv(y, w) <==> -w < x < w && -w < y < w)
  {
    EpochSlotIsDouble(x, w);
    EpochSlotIsDouble(y, w);
    if x < 0 < y { QuotientSign(-x, w); QuotientSign(y, w); }
    if y < 0 < x { QuotientSign(-y, w); QuotientSign(x, w); }
  }

  lemma QuotientSign(x: nat, w: int)
    requires w > 0
    ensures x / w >= 0
  {}

  /**
   Two versions of one fragment compete exactly when their ages lie in the same range and their times in the same
   period of that range: equal times under an hour, then the same hour, day, 30 days or 365 days.
   */
  lemma RivalsIff(now: S64, a: Block, b: Block)
    requires a.ts >= 0 && b.ts >= 0
    ensures Rivals(now, a, b) ==> a.uuid == b.uuid && a.frag == b.frag
    ensures var x, y := now - a.ts, now - b.ts;
      && (x < 3600 <= y || x < 86400 <= y || x < 1209600 <= y || x < 31536000 <= y ==> !Rivals(now, a, b))
      && (y < 3600 <= x || y < 86400 <= x || y < 1209600 <= x || y < 31536000 <= x ==> !Rivals(now, a, b))
    ensures a.uuid == b.uuid && a.frag == b.frag ==>
      var x, y := now - a.ts, now - b.ts;
      && (x < 3600 && y < 3600 ==> (Rivals(now, a, b) <==> a.ts == b.ts))
      && (3600 <= x < 86400 && 3600 <= y < 86400 ==> (Rivals(now, a, b) <==> a.ts / 3600 == b.ts / 3600))
      && (86400 <= x < 1209600 && 86400 <= y < 1209600 ==> (Rivals(now, a, b) <==> a.ts / 86400 == b.ts / 86400))
      && (1209600 <= x < 31536000 && 1209600 <= y < 31536000 ==>
            (Rivals(now, a, b) <==> a.ts / 2592000 == b.ts / 2592000))
      && (31536000 <= x && 31536000 <= y ==> (Rivals(now, a, b) <==> a.ts / 31536000 == b.ts / 31536000))
  {
    hide TruncDiv;
    TruncSame(a.ts, b.ts, 3600);
    TruncSame(a.ts, b.ts, 86400);
    TruncSame(a.ts, b.ts, 2592000);
    TruncSame(a.ts, b.ts, 31536000);
  }

  /** Two times of which one lies before the epoch, in the same period of w seconds. */
  predicate SamePeriod(p: int, q: int, w: int)
    requires w > 0
  {
    if p < 0 && q < 0 then (-p) / w == (-q) / w else -w < p < w && -w < q < w
  }

  /** Before the epoch periods count backwards, and the two next to the epoch are one. */
  lemma RivalsBeforeEpoch(now: S64, a: Block, b: Block)
    requires a.ts < 0 || b.ts < 0
    ensures Rivals(now, a, b) ==> a.uuid == b.uuid && a.frag == b.frag
    ensures var x, y := now - a.ts, now - b.ts;
      && (x < 3600 <= y || x < 86400 <= y || x < 1209600 <= y || x < 31536000 <= y ==> !Rivals(now, a, b))
      && (y < 3600 <= x || y < 86400 <= x || y < 1209600 <= x || y < 31536000 <= x ==> !Rivals(now, a, b))
    ensures a.uuid == b.uuid && a.frag == b.frag ==>
      var x, y := now - a.ts, now - b.ts;
      && (x < 3600 && y < 3600 ==> (Rivals(now, a, b) <==> a.ts == b.ts))
      && (3600 <= x < 86400 && 3600 <= y < 86400 ==> (Rivals(now, a, b) <==> SamePeriod(a.ts, b.ts, 3600)))
      && (86400 <= x < 1209600 && 86400 <= y < 1209600 ==> (Rivals(now, a, b) <==> SamePeriod(a.ts, b.ts, 86400)))
      && (1209600 <= x < 31536000 && 1209600 <= y < 31536000 ==>
            (Rivals(now, a, b) <==> SamePeriod(a.ts, b.ts, 2592000)))
      && (31536000 <= x && 31536000 <= y ==> (Rivals(now, a, b) <==> SamePeriod(a.ts, b.ts, 31536000)))
  {
    hide TruncDiv;
    PeriodsAgree(a.ts, b.ts, 3600);
    PeriodsAgree(a.ts, b.ts, 86400);
    PeriodsAgree(a.ts, b.ts, 2592000);
    PeriodsAgree(a.ts, b.ts, 31536000);
  }

  lemma PeriodsAgree(p: int, q: int, w: int)
    requires w > 0 && (p < 0 || q < 0)
    ensures TruncDiv(p, w) == TruncDiv(q, w) <==> SamePeriod(p, q, w)
  {
    TruncSame(p, q, w);
    EpochSlotIsDouble(p, w);
    EpochSlotIsDouble(q, w);
  }

  // ---------------------------------------------------------------- sort keys

  datatype SortKey = SortKey(uuid: seq<Byte>, frag: nat, b: Bucket, ts: S64, idx: nat)

  function KeyOf(l: seq<Block>, now: S64, i: nat): SortKey
    requires i < |l|
  {
    SortKey(l[i].uuid, l[i].frag, BucketOf(now, l[i].ts), l[i].ts, i)
  }

  predicate SameGroup(a: SortKey, b: SortKey) { a.uuid == b.uuid && a.frag == b.frag && a.b == b.b }

  predicate GroupLess(a: SortKey, b: SortKey) {
    LexLess(a.uuid, b.uuid) || (a.uuid == b.uuid &&
      (a.frag < b.frag || (a.frag == b.frag &&
        (a.b.band < b.b.band || (a.b.band == b.b.band && a.b.slot < b.b.slot)))))
  }

  /** Groups in order; inside a group the winner first. */
  predicate Before(a: SortKey, b: SortKey) { GroupLess(a, b) || (SameGroup(a, b) && Beats(a.ts, a.idx, b.ts, b.idx)) }

  lemma GroupTrans(a: SortKey, b: SortKey, c: SortKey)
    requires GroupLess(a, b) && GroupLess(b, c)
    ensures GroupLess(a, c)
  {
    if LexLess(a.uuid, b.uuid) && LexLess(b.uuid, c.uuid) { LexTransitive(a.uuid, b.uuid, c.uuid); }
  }

  lemma GroupIrreflexive(a: SortKey, b: SortKey)
    requires SameGroup(a, b)
    ensures !GroupLess(a, b)
  {
    LexIrreflexive(a.uuid);
  }

  lemma BeforeTrans(a: SortKey, b: SortKey, c: SortKey)
    requires Before(a, b) && Before(b, c)
    ensures Before(a, c)
  {
    if GroupLess(a, b) && GroupLess(b, c) { GroupTrans(a, b, c); }
  }

  lemma BeforeTotal(a: SortKey, b: SortKey)
    requires a.idx != b.idx
    ensures Before(a, b) || Before(b, a)
  {
    LexTotal(a.uuid, b.uuid);
  }

  ghost predicate SortedKeys(k: seq<SortKey>) { forall i, j | 0 <= i < j < |k| :: Before(k[i], k[j]) }

  /** Between two members of a group lie only members of it. */
  lemma GroupRun(a: SortKey, b: SortKey, c: SortKey)
    requires Before(a, b) && Before(b, c) && SameGroup(a, c)
    ensures SameGroup(a, b)
  {
    if GroupLess(a, b) {
      if GroupLess(b, c) { GroupTrans(a, b, c); }
      GroupIrreflexive(a, c);
    }
  }

  ghost predicate DistinctIdx(k: seq<SortKey>) { forall i, j | 0 <= i < j < |k| :: k[i].idx != k[j].idx }

  method InsertKey(r: seq<SortKey>, x: SortKey) returns (s: seq<SortKey>)
    requires SortedKeys(r) && forall j | 0 <= j < |r| :: r[j].idx != x.idx
    ensures SortedKeys(s) && multiset(s) == multiset(r) + multiset{x}
  {
    hide Before;
    var i := |r|;
    while i > 0 && Before(x, r[i - 1])
      invariant 0 <= i <= |r| && forall j | i <= j < |r| :: Before(x, r[j])
    {
      i := i - 1;
    }
    if i > 0 { BeforeTotal(x, r[i - 1]); }
    forall j | 0 <= j < i ensures Before(r[j], x) { if j < i - 1 { BeforeTrans(r[j], r[i - 1], x); } }
    assert r == r[..i] + r[i..];
    s := r[..i] + [x] + r[i..];
  }

  /** The library sort, by insertion. */
  method SortKeys(k: seq<SortKey>) returns (r: seq<SortKey>)
    requires DistinctIdx(k)
    ensures SortedKeys(r) && multiset(r) == multiset(k)
  {
    hide Before, SortedKeys;
    r := [];
    assert SortedKeys(r) by { NoneSorted(); }
    for n := 0 to |k|
      invariant SortedKeys(r) && multiset(r) == multiset(k[..n])
    {
      forall j | 0 <= j < |r| ensures r[j].idx != k[n].idx { InPrefix(k, n, r, r[j]); }
      assert k[..n + 1] == k[..n] + [k[n]];
      r := InsertKey(r, k[n]);
    }
    assert k[..|k|] == k;
  }

  lemma NoneSorted()
    ensures SortedKeys([])
  {}

  lemma InPrefix(k: seq<SortKey>, n: nat, r: seq<SortKey>, y: SortKey)
    requires DistinctIdx(k) && n < |k| && multiset(r) == multiset(k[..n]) && y in r
    ensures y.idx != k[n].idx
  {
    assert y in multiset(r);
    assert y in k[..n];
    var j :| 0 <= j < n && k[..n][j] == y;
    assert k[j] == y;
  }

  // ---------------------------------------------------------------- the time machine

  /** The keys of exactly the competing blocks below n. */
  ghost predicate KeysOf(l: seq<Block>, now: S64, usePins: bool, k: seq<SortKey>, n: nat)
    requires n <= |l|
  {
    && (forall p | 0 <= p < |k| :: k[p].idx < n && Competes(l[k[p].idx], usePins) && k[p] == KeyOf(l, now, k[p].idx))
    && (forall i | 0 <= i < n && Competes(l[i], usePins) :: KeyOf(l, now, i) in k)
    && DistinctIdx(k)
  }

  lemma SortedKeysOf(l: seq<Block>, now: S64, usePins: bool, k: seq<SortKey>, r: seq<SortKey>)
    requires KeysOf(l, now, usePins, k, |l|) && multiset(r) == multiset(k) && SortedKeys(r)
    ensures KeysOf(l, now, usePins, r, |l|)
  {
    forall x ensures x in r <==> x in k { assert x in multiset(r) <==> x in multiset(k); }
    forall p | 0 <= p < |r| ensures r[p].idx < |l| && Competes(l[r[p].idx], usePins) && r[p] == KeyOf(l, now, r[p].idx)
    {
      assert r[p] in k;
      var q :| 0 <= q < |k| && k[q] == r[p];
    }
    forall i, j | 0 <= i < j < |r| ensures r[i].idx != r[j].idx
    {
      assert r[i] in k && r[j] in k && Before(r[i], r[j]);
      if r[i].idx == r[j].idx { BeforeSelf(r[i]); }
    }
  }

  lemma BeforeSelf(a: SortKey)
    ensures !Before(a, a)
  {
    GroupIrreflexive(a, a);
  }

  /** In the sorted list, the losers are those that follow a member of their own group. */
  lemma LoserFollows(l: seq<Block>, now: S64, usePins: bool, r: seq<SortKey>, p: nat)
    requires KeysOf(l, now, usePins, r, |l|) && SortedKeys(r) && p < |r|
    ensures Loses(l, now, usePins, r[p].idx) <==> p > 0 && SameGroup(r[p - 1], r[p])
  {
    hide BucketOf, LexLess;
    var i := r[p].idx;
    if p > 0 && SameGroup(r[p - 1], r[p]) {
      assert Before(r[p - 1], r[p]);
      GroupIrreflexive(r[p - 1], r[p]);
      var j := r[p - 1].idx;
      assert Competes(l[j], usePins) && Rivals(now, l[j], l[i]) && Beats(l[j].ts, j, l[i].ts, i);
    }
    if Loses(l, now, usePins, i) {
      var j :| 0 <= j < |l| && Competes(l[j], usePins) && Rivals(now, l[j], l[i]) && Beats(l[j].ts, j, l[i].ts, i);
      var q :| 0 <= q < |r| && r[q] == KeyOf(l, now, j);
      RivalBefore(r, q, p);
      if q < p - 1 { GroupRun(r[q], r[p - 1], r[p]); }
    }
  }

  lemma RivalBefore(r: seq<SortKey>, q: nat, p: nat)
    requires SortedKeys(r) && q < |r| && p < |r| && SameGroup(r[q], r[p]) && Beats(r[q].ts, r[q].idx, r[p].ts, r[p].idx)
    ensures q < p
  {
    hide LexLess;
    if p < q { assert Before(r[p], r[q]); GroupIrreflexive(r[p], r[q]); }
  }

  /** Marks every competing block that is not the newest of its bucket. */
  method TimeMachine(l: seq<Block>, now: S64, usePins: bool) returns (drop: seq<bool>)
    ensures |drop| == |l| && forall i | 0 <= i < |l| :: drop[i] <==> Loses(l, now, usePins, i)
  {
    hide BucketOf, LexLess, Loses;
    var k: seq<SortKey> := [];
    for i := 0 to |l|
      invariant KeysOf(l, now, usePins, k, i)
    {
      ghost var was := k;
      if Competes(l[i], usePins) { k := k + [KeyOf(l, now, i)]; }
      assert forall x | x in was :: x in k;
    }
    var r := SortKeys(k);
    SortedKeysOf(l, now, usePins, k, r);
    drop := seq(|l|, _ => false);
    for p := 0 to |r|
      invariant |drop| == |l|
      invariant forall i | 0 <= i < |l| ::
          drop[i] <==> exists q :: 0 <= q < p && r[q].idx == i && Loses(l, now, usePins, i)
    {
      LoserFollows(l, now, usePins, r, p);
      ghost var was := drop;
      if p > 0 && SameGroup(r[p - 1], r[p]) { drop := drop[r[p].idx := true]; }
      forall i | 0 <= i < |l| ensures drop[i] <==>
          exists q :: 0 <= q < p + 1 && r[q].idx == i && Loses(l, now, usePins, i)
      {
        if was[i] { var q :| 0 <= q < p && r[q].idx == i && Loses(l, now, usePins, i); }
      }
    }
    forall i | 0 <= i < |l| ensures drop[i] <==> Loses(l, now, usePins, i)
    {
      if Loses(l, now, usePins, i) {
        LosersCompete(l, now, usePins, i);
        var q :| 0 <= q < |r| && r[q] == KeyOf(l, now, i);
        assert r[q].idx == i;
      }
    }
  }

  lemma LosersCompete(l: seq<Block>, now: S64, usePins: bool, i: nat)
    requires i < |l| && Loses(l, now, usePins, i)
    ensures Competes(l[i], usePins)
  {}

  // ---------------------------------------------------------------- what the policy means

  /** A pinned block never loses and never takes a bucket. */
  lemma PinnedAside(l: seq<Block>, now: S64, i: nat, j: nat)
    requires i < |l| && j < |l| && l[i].pins > 0 && Loses(l, now, true, j)
    ensures !Loses(l, now, true, i)
    ensures exists k ::
        0 <= k < |l| && k != i && l[k].pins == 0 && Rivals(now, l[k], l[j]) && Beats(l[k].ts, k, l[j].ts, j)
  {
    var k :| 0 <= k < |l| && Competes(l[k], true) && Rivals(now, l[k], l[j]) && Beats(l[k].ts, k, l[j].ts, j);
    assert k != i && l[k].pins == 0;
  }

  /** Every bucket with a competing block keeps exactly one: its newest, first in scan order among equals. */
  lemma {:induction false} OneSurvivor(l: seq<Block>, now: S64, usePins: bool, i: nat) returns (w: nat)
    requires i < |l| && Competes(l[i], usePins)
    ensures w < |l| && Competes(l[w], usePins) && Rivals(now, l[w], l[i]) && !Loses(l, now, usePins, w)
    ensures forall k | 0 <= k < |l| && Competes(l[k], usePins) && Rivals(now, l[k], l[i]) && k != w ::
              Loses(l, now, usePins, k) && Beats(l[w].ts, w, l[k].ts, k)
  {
    hide BucketOf;
    w := i;
    for j := 0 to |l|
      invariant w < |l| && Competes(l[w], usePins) && Rivals(now, l[w], l[i])
      invariant forall k | 0 <= k < j && Competes(l[k], usePins) && Rivals(now, l[k], l[i]) && k != w ::
          Beats(l[w].ts, w, l[k].ts, k)
      invariant w == i || w < j
      invariant w != i ==> Beats(l[w].ts, w, l[i].ts, i)
    {
      if Competes(l[j], usePins) && Rivals(now, l[j], l[i]) && Beats(l[j].ts, j, l[w].ts, w) { w := j; }
    }
  }

  /** The blocks that were not dropped, in order. */
  ghost function Survivors(l: seq<Block>, drop: seq<bool>): seq<Block>
    requires |drop| == |l|
  {
    if l == [] then []
    else var n := |l| - 1; Survivors(l[..n], drop[..n]) + (if drop[n] then [] else [l[n]])
  }

  /** Where survivor x came from. */
  lemma {:induction false} Origin(l: seq<Block>, drop: seq<bool>, x: nat, y: nat) returns (i: nat, j: nat)
    requires |drop| == |l| && x < y < |Survivors(l, drop)|
    ensures i < j < |l| && !drop[i] && !drop[j] && l[i] == Survivors(l, drop)[x] && l[j] == Survivors(l, drop)[y]
  {
    var n := |l| - 1;
    var s := Survivors(l[..n], drop[..n]);
    if y < |s| {
      i, j := Origin(l[..n], drop[..n], x, y);
    } else {
      j := n;
      i := Origin1(l[..n], drop[..n], x);
    }
  }

  lemma {:induction false} Origin1(l: seq<Block>, drop: seq<bool>, x: nat) returns (i: nat)
    requires |drop| == |l| && x < |Survivors(l, drop)|
    ensures i < |l| && !drop[i] && l[i] == Survivors(l, drop)[x]
  {
    var n := |l| - 1;
    if x < |Survivors(l[..n], drop[..n])| { i := Origin1(l[..n], drop[..n], x); } else { i := n; }
  }

  /** A second pass over the survivors at the same time drops nothing. */
  lemma SecondPassIdle(l: seq<Block>, now: S64, usePins: bool, drop: seq<bool>, x: nat)
    requires |drop| == |l| && (forall i | 0 <= i < |l| :: drop[i] <==> Loses(l, now, usePins, i))
        && x < |Survivors(l, drop)|
    ensures !Loses(Survivors(l, drop), now, usePins, x)
  {
    hide BucketOf, Survivors;
    var s := Survivors(l, drop);
    forall y | 0 <= y < |s| && Competes(s[x], usePins) && Competes(s[y], usePins) && Rivals(now, s[y], s[x])
      ensures !Beats(s[y].ts, y, s[x].ts, x)
    {
      if x < y {
        var i, j := Origin(l, drop, x, y);
        assert !Loses(l, now, usePins, i);
      } else if y < x {
        var j, i := Origin(l, drop, y, x);
        assert !Loses(l, now, usePins, i);
      }
    }
  }

  // ---------------------------------------------------------------- decisions and counters

  function Count(f: seq<bool>): nat { if f == [] then 0 else Count(f[..|f| - 1]) + (if f[|f| - 1] then 1 else 0) }

  /** Bytes given back by the dropped blocks. */
  function Reclaim(v: seq<Block>, f: seq<bool>): nat
    requires |f| == |v|
  {
    if v == [] then 0
    else var n := |v| - 1; Reclaim(v[..n], f[..n]) + (if f[n] then F.RoundUp(v[n].total) else 0)
  }

  lemma {:induction false} MarkOne(v: seq<Block>, f: seq<bool>, i: nat)
    requires |f| == |v| && i < |v| && !f[i]
    ensures Count(f[i := true]) == Count(f) + 1 && Reclaim(v, f[i := true]) == Reclaim(v, f) + F.RoundUp(v[i].total)
  {
    var n := |v| - 1;
    if i < n {
      MarkOne(v[..n], f[..n], i);
      assert f[i := true][..n] == f[..n][i := true];
    } else {
      assert f[i := true][..n] == f[..n];
    }
  }

  lemma {:induction false} CountMost(f: seq<bool>)
    ensures Count(f) <= |f| && (Count(f) == |f| ==> forall i | 0 <= i < |f| :: f[i])
  {
    if f != [] { CountMost(f[..|f| - 1]); }
  }

  /** Which blocks the container's eviction code drops at a given time. */
  ghost predicate Dropped(v: seq<Block>, code: nat, now: S64, i: nat)
    requires i < |v|
  {
    match code
    case 0 => Loses(v, now, true, i)
    case 2 => SatSub(now, v[i].ts) >= DAY && v[i].pins == 0
    case _ => false
  }

  /** A block that only its pin saved. */
  ghost predicate SavedByPin(v: seq<Block>, code: nat, now: S64, i: nat)
    requires i < |v|
  {
    v[i].pins > 0 && match code
    case 0 => Loses(v, now, false, i)
    case 2 => SatSub(now, v[i].ts) >= DAY
    case _ => false
  }

  /**
   In plain words: the time machine drops beaten unpinned rivals, the horizon unpinned blocks a day old, all
   else nothing.
   */
  lemma DroppedIff(v: seq<Block>, code: nat, now: S64, i: nat)
    requires i < |v|
    ensures code == 0 ==>
        (Dropped(v, code, now, i) <==> v[i].pins == 0 && exists j ::
           0 <= j < |v| && v[j].pins == 0 && Rivals(now, v[j], v[i])
           && (v[j].ts > v[i].ts || (v[j].ts == v[i].ts && j < i)))
    ensures code == 2 ==> (Dropped(v, code, now, i) <==> v[i].pins == 0 && now - v[i].ts >= 86400)
    ensures code != 0 && code != 2 ==> !Dropped(v, code, now, i)
    ensures code == 0 ==>
        (SavedByPin(v, code, now, i) <==> v[i].pins > 0 && exists j ::
           0 <= j < |v| && Rivals(now, v[j], v[i]) && (v[j].ts > v[i].ts || (v[j].ts == v[i].ts && j < i)))
    ensures code == 2 ==> (SavedByPin(v, code, now, i) <==> v[i].pins > 0 && now - v[i].ts >= 86400)
    ensures code != 0 && code != 2 ==> !SavedByPin(v, code, now, i)
  {
    hide BucketOf;
    if code == 0 && v[i].pins == 0 && exists j ::
        0 <= j < |v| && v[j].pins == 0 && Rivals(now, v[j], v[i])
            && (v[j].ts > v[i].ts || (v[j].ts == v[i].ts && j < i)) {
      var j :| 0 <= j < |v| && v[j].pins == 0 && Rivals(now, v[j], v[i])
          && (v[j].ts > v[i].ts || (v[j].ts == v[i].ts && j < i));
      assert Competes(v[j], true) && Beats(v[j].ts, j, v[i].ts, i);
    }
  }

  class EvList {
    const v: seq<Block>
    var drop: seq<bool>
    var dropped: nat
    var reclaimed: nat
    var kept: nat
    var pinnedKept: nat

    constructor (v: seq<Block>)
      ensures Valid() && this.v == v && dropped == 0 && forall i | 0 <= i < |v| :: !drop[i]
    {
      this.v, drop := v, seq(|v|, _ => false);
      dropped, reclaimed, kept, pinnedKept := 0, 0, |v|, 0;
      NoneDropped(v, seq(|v|, _ => false));
    }

    /** The counters say what the flags say. */
    ghost predicate Valid()
      reads this
    {
      && |drop| == |v| && dropped == Count(drop) && reclaimed == Reclaim(v, drop) && dropped + kept == |v|
    }

    /** The flags the eviction code asks for, and the blocks only a pin saves. */
    method Choose(code: nat, now: S64) returns (d: seq<bool>, saved: seq<bool>)
      ensures |d| == |saved| == |v|
      ensures forall i | 0 <= i < |v| :: d[i] <==> Dropped(v, code, now, i)
      ensures forall i | 0 <= i < |v| :: saved[i] <==> SavedByPin(v, code, now, i)
    {
      hide Loses, SatSub;
      d, saved := seq(|v|, _ => false), seq(|v|, _ => false);
      if code == 0 {
        d := TimeMachine(v, now, true);
        var shadow := TimeMachine(v, now, false);
        saved := seq(|v|, i requires 0 <= i < |v| => v[i].pins > 0 && shadow[i]);
      } else if code == 2 {
        d := seq(|v|, i requires 0 <= i < |v| => SatSub(now, v[i].ts) >= DAY && v[i].pins == 0);
        saved := seq(|v|, i requires 0 <= i < |v| => SatSub(now, v[i].ts) >= DAY && v[i].pins > 0);
      }
    }

    method Decide(code: nat, now: S64)
      requires Valid()
      modifies this
      ensures Valid() && forall i | 0 <= i < |v| :: drop[i] <==> Dropped(v, code, now, i)
      ensures pinnedKept == Count(seq(|v|, i requires 0 <= i < |v| => SavedByPin(v, code, now, i)))
    {
      hide Dropped, SavedByPin, F.RoundUp;
      var d, saved := Choose(code, now);
      assert saved == seq(|v|, i requires 0 <= i < |v| => SavedByPin(v, code, now, i));
      dropped, reclaimed, pinnedKept, drop := 0, 0, 0, d;
      for i := 0 to |v|
        invariant drop == d
        invariant dropped == Count(d[..i]) && reclaimed == Reclaim(v[..i], d[..i]) && pinnedKept == Count(saved[..i])
      {
        assert d[..i + 1][..i] == d[..i] && v[..i + 1][..i] == v[..i] && saved[..i + 1][..i] == saved[..i];
        if d[i] { dropped, reclaimed := dropped + 1, reclaimed + F.RoundUp(v[i].total); }
        if saved[i] { pinnedKept := pinnedKept + 1; }
      }
      assert d[..|v|] == d && v[..|v|] == v && saved[..|v|] == saved;
      CountMost(d);
      kept := |v| - dropped;
    }

    /** The oldest block that may still be dropped, first in scan order among equals; |v| if there is none. */
    method Oldest() returns (best: nat)
      requires Valid()
      ensures best <= |v| && (best < |v| ==> Open(best)) && (best == |v| ==> forall i | 0 <= i < |v| :: !Open(i))
      ensures best < |v| ==>
          forall i | 0 <= i < |v| && Open(i) && i != best :: v[best].ts < v[i].ts || (v[best].ts == v[i].ts && best < i)
    {
      best := |v|;
      for i := 0 to |v|
        invariant best == |v| || (best < i && Open(best))
        invariant best == |v| ==> forall j | 0 <= j < i :: !Open(j)
        invariant best < |v| ==>
            forall j | 0 <= j < i && Open(j) && j != best :: v[best].ts < v[j].ts || (v[best].ts == v[j].ts && best < j)
      {
        if !drop[i] && v[i].pins == 0 && (best == |v| || v[i].ts < v[best].ts) { best := i; }
      }
    }

    ghost predicate Open(i: nat)
      reads this
    {
      i < |v| && i < |drop| && !drop[i] && v[i].pins == 0
    }

    /** Drops oldest first until the target is met or nothing may be dropped; pinned blocks stay. */
    method PressureCap(target: nat)
      requires Valid()
      modifies this
      ensures Valid() && pinnedKept == old(pinnedKept)
      ensures forall i | 0 <= i < |v| :: (old(drop[i]) ==> drop[i]) && (drop[i] && !old(drop[i]) ==> v[i].pins == 0)
      ensures reclaimed >= target || forall i | 0 <= i < |v| :: !Open(i)
      ensures forall i, j | 0 <= i < |v| && 0 <= j < |v| && drop[i] && !old(drop[i]) && Open(j) ::
          v[i].ts <= v[j].ts && (v[i].ts == v[j].ts ==> i < j)
      ensures drop == old(drop) || exists k :: LastDropped(old(drop), k) && reclaimed - F.RoundUp(v[k].total) < target
    {
      hide F.RoundUp, Count, Reclaim;
      while reclaimed < target
        invariant Valid() && pinnedKept == old(pinnedKept)
        invariant forall i | 0 <= i < |v| :: (old(drop[i]) ==> drop[i]) && (drop[i] && !old(drop[i]) ==> v[i].pins == 0)
        invariant forall i, j | 0 <= i < |v| && 0 <= j < |v| && drop[i] && !old(drop[i]) && Open(j) ::
            v[i].ts <= v[j].ts && (v[i].ts == v[j].ts ==> i < j)
        invariant drop == old(drop) || exists k ::
            LastDropped(old(drop), k) && reclaimed - F.RoundUp(v[k].total) < target
        decreases kept
      {
        var best := Oldest();
        if best == |v| { break; }
        MarkOne(v, drop, best);
        CountMost(drop[best := true]);
        drop := drop[best := true];
        dropped, kept, reclaimed := dropped + 1, kept - 1, reclaimed + F.RoundUp(v[best].total);
      }
    }

    /** k is the youngest of the blocks dropped since `was`, the latest in scan order among equals. */
    ghost predicate LastDropped(was: seq<bool>, k: int)
      reads this
    {
      && |was| == |drop| == |v| && 0 <= k < |v| && drop[k] && !was[k]
      && forall i | 0 <= i < |v| && drop[i] && !was[i] && i != k :: v[i].ts < v[k].ts || (v[i].ts == v[k].ts && i < k)
    }

    /** The lowest address that must stay allocated. */
    method TailLow(cap: nat) returns (low: nat)
      requires Valid()
      ensures low <= cap && (forall i | 0 <= i < |v| && !drop[i] :: low <= v[i].addr)
      ensures low == cap || exists i :: 0 <= i < |v| && !drop[i] && v[i].addr == low
    {
      low := cap;
      for i := 0 to |v|
        invariant low <= cap && (forall j | 0 <= j < i && !drop[j] :: low <= v[j].addr)
        invariant low == cap || exists j :: 0 <= j < i && !drop[j] && v[j].addr == low
      {
        if !drop[i] && v[i].addr < low { low := v[i].addr; }
      }
    }
  }

  lemma {:induction false} NoneDropped(v: seq<Block>, f: seq<bool>)
    requires |f| == |v| && forall i | 0 <= i < |f| :: !f[i]
    ensures Count(f) == 0 && Reclaim(v, f) == 0
  {
    if v != [] { NoneDropped(v[..|v| - 1], f[..|v| - 1]); }
  }
}
