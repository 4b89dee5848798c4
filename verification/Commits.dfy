/**
 Successive commits of one stream (kernel/sfs_cow.c:824-847, 1221-1244 and
 1136-1552): their version vectors form a chain, and no fragment is sealed twice
 under one dot unless a writer's counter has come round.
 */
module Commits {
  import opened Undo
  import opened ContentIo
  import opened Fold
  import opened Rechunk
  import VV = VersionVector

  /** One published commit: who made it, the counter drawn, and what it sealed. */
  datatype Commit = Commit(alias: VV.U16, sync: VV.U64, seals: set<nat>)

  /** s succeeds r by commit c. */
  ghost predicate Follows(r: Rec, c: Commit, s: Rec) {
    && Dotted(r, s, c.alias, c.sync) && c.sync > 0
    && forall f | f in c.seals :: f < |s.dots| && s.dots[f] == VV.Dot(c.sync, c.alias)
  }

  ghost predicate History(rs: seq<Rec>, cs: seq<Commit>) {
    |rs| == |cs| + 1 && forall i, j | 0 <= i < |cs| && j == i + 1 :: Follows(rs[i], cs[i], rs[j])
  }

  ghost function Vectors(rs: seq<Rec>): seq<VV.Vector> { seq(|rs|, i requires 0 <= i < |rs| => rs[i].vv) }

  ghost function Writers(cs: seq<Commit>): seq<VV.U16> { seq(|cs|, i requires 0 <= i < |cs| => cs[i].alias) }

  /** The records of a history carry a chain of version vectors. */
  lemma HistoryChain(rs: seq<Rec>, cs: seq<Commit>)
    requires History(rs, cs)
    ensures VV.Chain(Vectors(rs), Writers(cs))
    ensures forall i, j | 0 <= i < |cs| && j == i + 1 :: VV.Counter(rs[j].vv, cs[i].alias) == cs[i].sync
  {
    hide VV.Counter, VV.Wf;
    forall i, j | 0 <= i < |cs| && j == i + 1 ensures VV.Succeeds(rs[i].vv, cs[i].alias, rs[j].vv) {
      assert Follows(rs[i], cs[i], rs[j]);
    }
  }

  /**
   Commits i and j seal fragment f under one dot exactly when one writer made both, a multiple of 2^48 commits
   apart.
   */
  lemma SealsRepeatIff(rs: seq<Rec>, cs: seq<Commit>, i: nat, j: nat, f: nat)
    requires History(rs, cs) && i < j < |cs| && f in cs[i].seals && f in cs[j].seals
    ensures f < |rs[i + 1].dots| && f < |rs[j + 1].dots|
    ensures rs[i + 1].dots[f] == rs[j + 1].dots[f] <==>
            cs[i].alias == cs[j].alias && cs[j].sync > cs[i].sync && (cs[j].sync - cs[i].sync) % 0x1_0000_0000_0000 == 0
  {
    hide VV.Counter, VV.Dot, VV.Chain;
    HistoryChain(rs, cs);
    assert Follows(rs[i], cs[i], rs[i + 1]) && Follows(rs[j], cs[j], rs[j + 1]);
    VV.DotsRepeatIff(Vectors(rs), Writers(cs), i, j);
  }

  /** While counters stay below 2^48, no (fragment, dot) pair is sealed twice. */
  lemma SealedOnce(rs: seq<Rec>, cs: seq<Commit>, i: nat, j: nat, f: nat)
    requires History(rs, cs) && i < j < |cs| && f in cs[i].seals && f in cs[j].seals && cs[j].sync < 0x1_0000_0000_0000
    ensures f < |rs[i + 1].dots| && f < |rs[j + 1].dots| && rs[i + 1].dots[f] != rs[j + 1].dots[f]
  {
    hide History;
    SealsRepeatIff(rs, cs, i, j, f);
  }

  /** An attempt that was not published and its repeat draw the same counter, so they seal under the same dot. */
  lemma RetryShares(r: Rec, s: Rec, s': Rec, a: VV.U16, sync: VV.U64, sync': VV.U64)
    requires Dotted(r, s, a, sync) && Dotted(r, s', a, sync')
    ensures VV.Dot(sync, a) == VV.Dot(sync', a)
  {}

  // ---------------------------------------------------------------- where dots do repeat

  const AROUND := 0x1_0000_0000_0000

  /** The vector after n commits of writer 1. */
  function Alone(n: VV.U64): VV.Vector { if n == 0 then [] else [VV.Entry(1, n)] }

  lemma AloneCounts(n: VV.U64)
    ensures VV.Wf(Alone(n)) && VV.Counter(Alone(n), 1) == n
    ensures forall b: VV.U16 | b != 1 :: VV.Counter(Alone(n), b) == 0
  {
    forall b: VV.U16 | b != 1 ensures VV.Counter(Alone(n), b) == 0 {
      if n > 0 { assert Alone(n)[1..] == []; }
    }
  }

  /** A one-fragment stream after n commits of writer 1, its fragment stored at the given address. */
  function Solo(n: VV.U64, addr: nat): Rec {
    Rec(12, [VV.Dot(n, 1)], [Loc(addr, 4096)], 4096, Plain, [], Alone(n))
  }

  lemma SoloFollows(n: VV.U64, addr: nat, addr': nat)
    requires n + 1 < VV.WRAP
    ensures Follows(Solo(n, addr), Commit(1, n + 1, {0}), Solo(n + 1, addr'))
  {
    hide VV.Dot, VV.Counter;
    AloneCounts(n);
    AloneCounts(n + 1);
  }

  /** 2^48 + 1 commits of one writer to one fragment: the first and the last seal it under the same dot. */
  lemma WrapRepeats() returns (rs: seq<Rec>, cs: seq<Commit>)
    ensures History(rs, cs) && |cs| == AROUND + 1 && 0 in cs[0].seals && 0 in cs[AROUND].seals
    ensures rs[1].dots[0] == rs[AROUND + 1].dots[0]
  {
    hide VV.Dot;
    rs := seq(AROUND + 2, i requires 0 <= i < AROUND + 2 => Solo(i, 8192));
    cs := seq(AROUND + 1, i requires 0 <= i < AROUND + 1 => Commit(1, i + 1, {0}));
    forall i, j | 0 <= i < |cs| && j == i + 1 ensures Follows(rs[i], cs[i], rs[j]) { SoloFollows(i, 8192, 8192); }
    VV.DotEqualIff(1, 1, AROUND + 1, 1);
  }

  /** Two attempts from the same head, the first never published: other bytes of fragment 0 under the same dot. */
  lemma RetryRepeats() returns (v: Cells, r: Rec, s: Rec, s': Rec)
    ensures Dotted(r, s, 1, 2) && Dotted(r, s', 1, 2) && RecIn(v, s) && RecIn(v, s')
    ensures s.dots == s'.dots && |s.dots| == 1 && ByteAt(v, s, 0) == 7 && ByteAt(v, s', 0) == 9
  {
    hide VV.Dot;
    r, s, s' := Solo(1, 8192), Solo(2, 16384), Solo(2, 24576);
    var b, b' := Blob(Plain, 0, VV.Dot(2, 1), seq(4096, _ => 7)), Blob(Plain, 0, VV.Dot(2, 1), seq(4096, _ => 9));
    v := map[16384 := Slot(b), 24576 := Slot(b')];
    SoloFollows(1, 8192, 16384);
    SoloFollows(1, 8192, 24576);
    assert Pow2(12) == 4096 by { assert Pow2(6) == 64; }
    assert FragIn(v, s, 0) && FragIn(v, s', 0);
    assert Quot(0, 4096) == 0 && Rem(0, 4096) == 0;
  }

  /** One batch for one unit. */
  datatype Batch = Batch(w: Writer, size: nat, min: nat, dirty: seq<Dirty>, pins: nat -> nat)

  ghost function SealsOf(b: Batch, r: Rec, s: Rec): set<nat>
      { set f: nat | f < |s.dots| && SealedNow(r, b.size, s, b.dirty, f) }

  /** Commit c is what batch b does to r. */
  ghost predicate Carries(b: Batch, r: Rec, c: Commit, s: Rec) {
    c.alias == b.w.alias && c.seals == SealsOf(b, r, s) && forall f: nat | SealedNow(r, b.size, s, b.dirty, f) ::
        f in c.seals
  }

  /** How a sequence of commits ends: by running out of batches, or at the first that does not go through. */
  datatype Stop = AllDone | ShortBuffer | Ended(st: FoldStatus) | Wrapped

  ghost predicate Undersized(b: Batch, r: Rec) {
    exists j :: 0 <= j < |b.dirty| && |b.dirty[j].plain| < Pow2(FoldExp(r, b.size))
  }

  /** What stops batch b at record r. */
  ghost predicate Stops(b: Batch, r: Rec, stop: Stop) {
    match stop
    case AllDone => false
    case ShortBuffer => Undersized(b, r)
    case Ended(st) => !Undersized(b, r) && !st.Done? && (st.BadRequest? <==> Refuses(r, b.size, b.dirty))
    case Wrapped => VV.Counter(r.vv, b.w.alias) == VV.WRAP - 1
  }

  /** Commits the batches in turn, stopping at the first that is refused, does not fit or wraps the counter. */
  method CommitAll(io: ContentIo, r0: Rec, batches: seq<Batch>)
    returns (r: Rec, stop: Stop, ghost rs: seq<Rec>, ghost cs: seq<Commit>)
    requires io.Valid() && RecIn(io.view, r0) && VV.Wf(r0.vv)
    modifies io`dev, io`view, io`saved, io`retired, io`ws, io`es, io.fa
    ensures io.Valid() && History(rs, cs) && |cs| <= |batches| && rs[0] == r0 && rs[|cs|] == r
    ensures forall i, j | 0 <= i < |cs| && j == i + 1 :: Carries(batches[i], rs[i], cs[i], rs[j])
    ensures if stop.AllDone? then |cs| == |batches| else |cs| < |batches| && Stops(batches[|cs|], r, stop)
  {
    hide ContentIo.Valid, RecIn, VV.Wf, Logged, FirstTouch, Pow2, FoldExact, Dotted, VV.Dot, VV.Counter, SealedNow;
    r, rs, cs, stop := r0, [r0], [], AllDone;
    for i := 0 to |batches|
      invariant io.Valid() && RecIn(io.view, r) && VV.Wf(r.vv) && |cs| == i && |rs| == i + 1 && rs[0] == r0
          && rs[i] == r && stop == AllDone
      invariant forall k, j | 0 <= k < i && j == k + 1 ::
          Follows(rs[k], cs[k], rs[j]) && Carries(batches[k], rs[k], cs[k], rs[j])
    {
      var b := batches[i];
      if exists j | 0 <= j < |b.dirty| :: |b.dirty[j].plain| < Pow2(FoldExp(r, b.size)) { stop := ShortBuffer; return; }
      var pins := seq<nat>(|r.locs|, k requires 0 <= k < |r.locs| => b.pins(k));
      var st, s;
      ghost var sync;
      st, s, sync := CommitUnit(io, b.w, r, b.size, b.min, b.dirty, pins);
      if !st.Done? { stop := Ended(st); return; }
      DottedFacts(r, s, b.w.alias, sync);
      if VV.Counter(s.vv, b.w.alias) == 0 { stop := Wrapped; return; }
      ghost var c := Commit(b.w.alias, sync, SealsOf(b, r, s));
      assert Follows(r, c, s);
      assert Carries(b, r, c, s);
      rs, cs, r := rs + [s], cs + [c], s;
    }
  }

  lemma DottedFacts(r: Rec, s: Rec, a: VV.U16, sync: VV.U64)
    requires Dotted(r, s, a, sync)
    ensures sync == VV.Counter(s.vv, a) && (sync > 0 ==> VV.Wf(s.vv))
    ensures sync == 0 ==> VV.Counter(r.vv, a) == VV.WRAP - 1
  {}
}
