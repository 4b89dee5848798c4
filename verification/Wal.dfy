/**
 The pending-write overlay of one unit and its checkpoint (kernel/sfs_wal.c:57-163
 and 290-397): what a read through the overlay returns is what the folded record
 holds.
 */
module Wal {
  import opened Base
  import opened Undo
  import opened ContentIo
  import opened Fold
  import opened Rechunk
  import VV = VersionVector

  /** One replayed write. */
  datatype Pend = Pend(off: nat, data: seq<Byte>) {
    function End(): nat { off + |data| }

    predicate Covers(p: nat) { off <= p < End() }
  }

  /** Ascending, hence unique, offsets. */
  ghost predicate Sorted(w: seq<Pend>) { forall i, j | 0 <= i < j < |w| :: w[i].off < w[j].off }

  ghost predicate Binds(w: seq<Pend>, off: nat, data: seq<Byte>) { exists i :: 0 <= i < |w| && w[i] == Pend(off, data) }

  /** v' binds off to data and everything else as v does. */
  ghost predicate Rebinds(v: seq<Pend>, v': seq<Pend>, off: nat, data: seq<Byte>) {
    forall o: nat, d: seq<Byte> :: Binds(v', o, d) <==> if o == off then d == data else Binds(v, o, d)
  }

  /** Binary search, then replace the write at the same offset or insert in order. */
  method InsertWrite(w: seq<Pend>, off: nat, data: seq<Byte>) returns (v: seq<Pend>)
    requires Sorted(w)
    ensures Sorted(v) && Rebinds(w, v, off, data)
  {
    var lo, hi := 0, |w|;
    while lo < hi
      invariant 0 <= lo <= hi <= |w|
      invariant forall i | 0 <= i < lo :: w[i].off < off
      invariant forall i | hi <= i < |w| :: w[i].off >= off
    {
      var mid := lo + (hi - lo) / 2;
      if w[mid].off < off { lo := mid + 1; } else { hi := mid; }
    }
    if lo < |w| && w[lo].off == off {
      v := w[lo := Pend(off, data)];
      ReplacedBinds(w, lo, off, data);
    } else {
      v := w[..lo] + [Pend(off, data)] + w[lo..];
      InsertedBinds(w, lo, off, data);
    }
  }

  lemma ReplacedBinds(v: seq<Pend>, k: nat, off: nat, data: seq<Byte>)
    requires Sorted(v) && k < |v| && v[k].off == off
    ensures Rebinds(v, v[k := Pend(off, data)], off, data)
  {
    var w := v[k := Pend(off, data)];
    forall o: nat, d: seq<Byte> ensures Binds(w, o, d) <==> if o == off then d == data else Binds(v, o, d)
    {
      if Binds(w, o, d) { var i :| 0 <= i < |w| && w[i] == Pend(o, d); if i != k { assert v[i] == Pend(o, d); } }
      if o == off && d == data { assert w[k] == Pend(o, d); }
      if o != off && Binds(v, o, d) { var i :| 0 <= i < |v| && v[i] == Pend(o, d); assert w[i] == Pend(o, d); }
    }
  }

  lemma InsertedBinds(v: seq<Pend>, k: nat, off: nat, data: seq<Byte>)
    requires Sorted(v) && k <= |v| && (forall i | 0 <= i < k :: v[i].off < off)
        && (forall i | k <= i < |v| :: v[i].off > off)
    ensures Rebinds(v, v[..k] + [Pend(off, data)] + v[k..], off, data)
  {
    var w := v[..k] + [Pend(off, data)] + v[k..];
    forall o: nat, d: seq<Byte> ensures Binds(w, o, d) <==> if o == off then d == data else Binds(v, o, d)
    {
      if Binds(w, o, d) {
        var i :| 0 <= i < |w| && w[i] == Pend(o, d);
        if i < k { assert v[i] == Pend(o, d); } else if i > k { assert v[i - 1] == Pend(o, d); }
      }
      if o == off && d == data { assert w[k] == Pend(o, d); }
      if o != off && Binds(v, o, d) {
        var i :| 0 <= i < |v| && v[i] == Pend(o, d);
        assert w[if i < k then i else i + 1] == Pend(o, d);
      }
    }
  }

  // ---------------------------------------------------------------- applying the overlay

  /** Writes are laid down in offset order: the last one covering p wins. */
  function Over(w: seq<Pend>, p: nat, base: Byte): Byte {
    if w == [] then base
    else
      var l := w[|w| - 1];
      if l.Covers(p) then l.data[p - l.off] else Over(w[..|w| - 1], p, base)
  }

  /** Write i holds position p and no later write does. */
  ghost predicate Tops(w: seq<Pend>, i: int, p: int) {
    && 0 <= i < |w| && w[i].off <= p < w[i].off + |w[i].data|
    && forall j | i < j < |w| :: !(w[j].off <= p < w[j].off + |w[j].data|)
  }

  /** No write holds position p. */
  ghost predicate Bare(w: seq<Pend>, p: int) { forall i | 0 <= i < |w| :: !(w[i].off <= p < w[i].off + |w[i].data|) }

  /** The byte laid down at p is the last covering write's byte for p. */
  lemma {:induction false} OverTop(w: seq<Pend>, i: int, p: nat, base: Byte)
    requires Tops(w, i, p)
    ensures Over(w, p, base) == w[i].data[p - w[i].off]
  {
    var n := |w| - 1;
    if i < n {
      assert !w[n].Covers(p);
      assert Tops(w[..n], i, p);
      OverTop(w[..n], i, p, base);
    }
  }

  /** Where no write lies, what was there stays. */
  lemma OverBare(w: seq<Pend>, p: nat, base: Byte)
    requires Bare(w, p)
    ensures Over(w, p, base) == base
  {
    hide Over;
    OverMisses(w, p, base);
  }

  /** Laying the overlay down twice is the same as once. */
  lemma {:induction false} OverTwice(w: seq<Pend>, p: nat, base: Byte)
    ensures Over(w, p, Over(w, p, base)) == Over(w, p, base)
  {
    if w != [] && !w[|w| - 1].Covers(p) {
      var v := w[..|w| - 1];
      if exists i :: 0 <= i < |v| && v[i].Covers(p) { OverCovered(v, p, base, Over(w, p, base)); } else
          { OverMisses(v, p, base); }
    }
  }

  lemma {:induction false} OverMisses(w: seq<Pend>, p: nat, base: Byte)
    requires forall i | 0 <= i < |w| :: !w[i].Covers(p)
    ensures Over(w, p, base) == base
  {
    if w != [] { OverMisses(w[..|w| - 1], p, base); }
  }

  lemma {:induction false} OverCovered(w: seq<Pend>, p: nat, a: Byte, b: Byte)
    requires exists i :: 0 <= i < |w| && w[i].Covers(p)
    ensures Over(w, p, a) == Over(w, p, b)
  {
    if !w[|w| - 1].Covers(p) {
      var i :| 0 <= i < |w| && w[i].Covers(p);
      assert w[..|w| - 1][i].Covers(p);
      OverCovered(w[..|w| - 1], p, a, b);
    }
  }

  /** The overlay laid over a window that starts at `at`. */
  function Laid(w: seq<Pend>, window: seq<Byte>, at: nat): seq<Byte> {
    seq(|window|, x requires 0 <= x < |window| => Over(w, at + x, window[x]))
  }

  /** Overlaying a window is the window of overlaying the whole file. */
  lemma WindowIsSlice(w: seq<Pend>, file: seq<Byte>, a: nat, b: nat)
    requires a <= b <= |file|
    ensures Laid(w, file[a..b], a) == Laid(w, file, 0)[a..b]
  {
    hide Over;
    forall x | 0 <= x < b - a ensures Laid(w, file[a..b], a)[x] == Laid(w, file, 0)[a..b][x]
        { assert file[a..b][x] == file[a + x]; }
  }

  /** Lays the overlay over a window of the file. */
  method Apply(w: seq<Pend>, buf: array<Byte>, start: nat)
    requires Sorted(w)
    modifies buf
    ensures forall x | 0 <= x < buf.Length :: buf[x] == Over(w, start + x, old(buf[x]))
    ensures buf[..] == Laid(w, old(buf[..]), start)
    ensures forall x, i | 0 <= x < buf.Length && Tops(w, i, start + x) :: buf[x] == w[i].data[start + x - w[i].off]
    ensures forall x | 0 <= x < buf.Length && Bare(w, start + x) :: buf[x] == old(buf[x])
  {
    hide Tops, Bare, Laid;
    var end := start + buf.Length;
    var i := 0;
    while i < |w|
      invariant 0 <= i <= |w|
      invariant forall x | 0 <= x < buf.Length :: buf[x] == Over(w[..i], start + x, old(buf[x]))
    {
      if w[i].off >= end {
        forall x | 0 <= x < buf.Length ensures Over(w, start + x, old(buf[x])) == Over(w[..i], start + x, old(buf[x]))
        {
          OverPrefix(w, i, start + x, old(buf[x]));
        }
        LaidIs(w, old(buf[..]), buf[..], start);
        return;
      }
      ghost var was := buf[..];
      if w[i].End() > start {
        var lo, hi := if w[i].off > start then w[i].off else start, if w[i].End() < end then w[i].End() else end;
        if lo < hi { CopyInto(buf, lo - start, w[i].data, lo - w[i].off, hi - lo); }
      }
      assert w[..i + 1][..i] == w[..i] && w[..i + 1][i] == w[i];
      forall x | 0 <= x < buf.Length ensures buf[x] == Over(w[..i + 1], start + x, old(buf[x]))
      {
        assert was[x] == Over(w[..i], start + x, old(buf[x]));
      }
      i := i + 1;
    }
    assert w[..i] == w;
    LaidIs(w, old(buf[..]), buf[..], start);
  }

  lemma LaidIs(w: seq<Pend>, was: seq<Byte>, now: seq<Byte>, start: nat)
    requires |now| == |was| && forall x | 0 <= x < |was| :: now[x] == Over(w, start + x, was[x])
    ensures now == Laid(w, was, start)
    ensures forall x, i | 0 <= x < |now| && Tops(w, i, start + x) :: now[x] == w[i].data[start + x - w[i].off]
    ensures forall x | 0 <= x < |now| && Bare(w, start + x) :: now[x] == was[x]
  {
    hide Over, Bare;
    forall x, i | 0 <= x < |now| && Tops(w, i, start + x) ensures now[x] == w[i].data[start + x - w[i].off] {
      OverTop(w, i, start + x, was[x]);
    }
    forall x | 0 <= x < |now| && Bare(w, start + x) ensures now[x] == was[x] { OverBare(w, start + x, was[x]); }
  }

  /** Writes that start past p do not matter. */
  lemma {:induction false} OverPrefix(w: seq<Pend>, n: nat, p: nat, base: Byte)
    requires n <= |w| && forall i | n <= i < |w| :: w[i].off > p
    ensures Over(w, p, base) == Over(w[..n], p, base)
    decreases |w|
  {
    if n < |w| {
      OverPrefix(w[..|w| - 1], n, p, base);
      assert w[..|w| - 1][..n] == w[..n];
    } else {
      assert w[..n] == w;
    }
  }

  /** The largest end of a write, zero if there is none; in 64 bits, or exact. */
  function Last(w: seq<Pend>, wrap: bool): nat {
    if w == [] then 0
    else
      var n := |w| - 1;
      var end, before := if wrap then w[n].End() % WORD else w[n].End(), Last(w[..n], wrap);
      if end > before then end else before
  }

  const WORD := 0x1_0000_0000_0000_0000

  /** The source's 64-bit maximum is the exact one if and only if no write reaches 2^64. */
  lemma {:induction false} LastExactIff(w: seq<Pend>)
    ensures Last(w, true) < WORD && Last(w, true) <= Last(w, false)
    ensures Last(w, true) == Last(w, false) <==> forall i | 0 <= i < |w| :: w[i].End() < WORD
  {
    if w != [] {
      var n := |w| - 1;
      LastExactIff(w[..n]);
      if forall i | 0 <= i < |w| :: w[i].End() < WORD {
        forall i | 0 <= i < n ensures w[..n][i].End() < WORD {}
      } else {
        var i :| 0 <= i < |w| && w[i].End() >= WORD;
        if i < n { assert w[..n][i].End() >= WORD; LastReaches(w[..n], i); }
        assert Last(w, false) >= WORD;
      }
    }
  }

  lemma {:induction false} LastReaches(w: seq<Pend>, i: nat)
    requires i < |w|
    ensures w[i].End() <= Last(w, false)
  {
    var n := |w| - 1;
    if i < n { LastReaches(w[..n], i); }
  }

  /** Where the last write ends. */
  method MaxEnd(w: seq<Pend>) returns (end: nat)
    ensures forall i | 0 <= i < |w| :: w[i].End() <= end
    ensures end == 0 || exists i :: 0 <= i < |w| && w[i].End() == end
    ensures end == Last(w, false)
  {
    end := 0;
    for i := 0 to |w|
      invariant forall j | 0 <= j < i :: w[j].End() <= end
      invariant end == 0 || exists j :: 0 <= j < i && w[j].End() == end
      invariant end == Last(w[..i], false)
    {
      assert w[..i + 1][..i] == w[..i];
      if w[i].End() > end { end := w[i].End(); }
    }
    assert w[..|w|] == w;
  }

  // ---------------------------------------------------------------- checkpoint

  /** Some write reaches into fragment f. */
  ghost predicate Touches(w: seq<Pend>, f: nat, fs: nat) {
    exists i :: 0 <= i < |w| && w[i].off < Times(f, fs) + fs && w[i].End() > Times(f, fs)
  }

  method IsTouched(w: seq<Pend>, f: nat, fs: nat) returns (t: bool)
    ensures t <==> Touches(w, f, fs)
  {
    hide Times;
    for i := 0 to |w|
      invariant forall j | 0 <= j < i :: !(w[j].off < Times(f, fs) + fs && w[j].End() > Times(f, fs))
    {
      if w[i].off < Times(f, fs) + fs && w[i].End() > Times(f, fs) { return true; }
    }
    return false;
  }

  /** The committed file at p; zeros past its end. */
  ghost function Committed0(v: Cells, r: Rec, p: nat): Byte
    requires RecIn(v, r)
  {
    if p < r.Size() then ByteAt(v, r, p) else 0
  }

  /** What a read of the pending file returns at p. */
  ghost function Pending(v: Cells, r: Rec, w: seq<Pend>, p: nat): Byte
    requires RecIn(v, r)
  {
    Over(w, p, Committed0(v, r, p))
  }

  lemma Inside(r: Rec, f: nat, o: nat)
    requires Shaped(r) && o < r.Fs()
    ensures Times(f, r.Fs()) + o < r.Size() <==> f < |r.locs| && o < Logical(r, f)
    ensures Quot(Times(f, r.Fs()) + o, r.Fs()) == f && Rem(Times(f, r.Fs()) + o, r.Fs()) == o
  {
    hide Pow2, Times, Quot, Rem;
    var n, fs := |r.locs|, r.Fs();
    Unique(Times(f, fs) + o, fs, f, o);
    if n > 0 {
      TimesSucc(n - 1, fs);
      if f < n - 1 { TimesSucc(f, fs); TimesLe(f + 1, n - 1, fs); } else if f >= n { TimesLe(n, f, fs); }
    }
  }

  /** The read-modify-write buffer of one touched fragment. */
  method StageFrag(io: ContentIo, r: Rec, w: seq<Pend>, f: nat, fs: nat) returns (plain: seq<Byte>)
    requires io.Valid() && RecIn(io.view, r) && Sorted(w) && fs > 0 && (r.locs != [] ==> r.Fs() == fs)
    ensures |plain| == fs && forall o | 0 <= o < fs :: plain[o] == Pending(io.view, r, w, Times(f, fs) + o)
  {
    hide ContentIo.Valid, Pow2, Times, Quot, Rem, FragIn, StoredByte, Over;
    var buf := new Byte[fs](_ => 0);
    if f < |r.locs| {
      var g := ReadFrag(io, r, f);
      assert |g.plain| <= fs by { LogicalFits(r, f); }
      CopyInto(buf, 0, g.plain, 0, |g.plain|);
    }
    ghost var was := buf[..];
    Apply(w, buf, Times(f, fs));
    plain := buf[..];
    forall o | 0 <= o < fs ensures was[o] == Committed0(io.view, r, Times(f, fs) + o)
    {
      if r.locs != [] { Inside(r, f, o); } else { EmptySize(r); }
    }
  }

  lemma LogicalFits(r: Rec, f: nat)
    requires Shaped(r) && f < |r.locs|
    ensures Logical(r, f) <= r.Fs()
  {}

  /** The staged fragments are exactly the touched ones, with their pending bytes. */
  ghost predicate Stages(v: Cells, r: Rec, w: seq<Pend>, fs: nat, dirty: seq<Dirty>, n: nat)
    requires RecIn(v, r)
  {
    && (forall j | 0 <= j < |dirty| ::
        dirty[j].frag < n && (j > 0 ==> dirty[j - 1].frag < dirty[j].frag) && StagedRight(v, r, w, fs, dirty[j]))
    && (forall f | 0 <= f < n :: Touches(w, f, fs) <==> IsStaged(dirty, f))
  }

  ghost predicate StagedRight(v: Cells, r: Rec, w: seq<Pend>, fs: nat, d: Dirty)
    requires RecIn(v, r)
  {
    |d.plain| == fs && d.pins == 0 && forall o | 0 <= o < fs :: d.plain[o] == Pending(v, r, w, Times(d.frag, fs) + o)
  }

  method StageAll(io: ContentIo, r: Rec, w: seq<Pend>, fs: nat, n: nat) returns (dirty: seq<Dirty>)
    requires io.Valid() && RecIn(io.view, r) && Sorted(w) && fs > 0 && (r.locs != [] ==> r.Fs() == fs)
    ensures Stages(io.view, r, w, fs, dirty, n)
  {
    hide ContentIo.Valid, Pow2, Times, FragIn, Touches, StagedRight, Sorted;
    dirty := [];
    for f := 0 to n
      invariant Stages(io.view, r, w, fs, dirty, f)
    {
      ghost var was := dirty;
      var t := IsTouched(w, f, fs);
      if t {
        var plain := StageFrag(io, r, w, f, fs);
        assert StagedRight(io.view, r, w, fs, Dirty(f, plain, 0)) by { RightHere(io.view, r, w, fs, f, plain); }
        dirty := dirty + [Dirty(f, plain, 0)];
      }
      StagedMore(was, dirty, f, t);
    }
  }

  lemma RightHere(v: Cells, r: Rec, w: seq<Pend>, fs: nat, f: nat, plain: seq<Byte>)
    requires RecIn(v, r) && |plain| == fs && forall o | 0 <= o < fs :: plain[o] == Pending(v, r, w, Times(f, fs) + o)
    ensures StagedRight(v, r, w, fs, Dirty(f, plain, 0))
  {}

  lemma StagedMore(was: seq<Dirty>, dirty: seq<Dirty>, f: nat, t: bool)
    requires forall j | 0 <= j < |was| :: was[j].frag < f
    requires if t then |dirty| == |was| + 1 && dirty[..|was|] == was && dirty[|was|].frag == f else dirty == was
    ensures forall i | 0 <= i < f :: IsStaged(dirty, i) <==> IsStaged(was, i)
    ensures IsStaged(dirty, f) <==> t
  {
    forall i | 0 <= i < f ensures IsStaged(dirty, i) <==> IsStaged(was, i)
    {
      if IsStaged(was, i) { var j :| 0 <= j < |was| && was[j].frag == i;
          assert dirty[..|was|][j] == dirty[j] && dirty[j].frag == i; }
      if IsStaged(dirty, i) { var j :| 0 <= j < |dirty| && dirty[j].frag == i; if j < |was|
          { assert dirty[..|was|][j] == was[j]; } }
    }
    if t { assert dirty[|was|].frag == f; }
  }

  /** Reading the folded record is reading the old one through the overlay. */
  ghost predicate Agrees(v0: Cells, r: Rec, w: seq<Pend>, v1: Cells, s: Rec, size: nat)
    requires RecIn(v0, r) && RecIn(v1, s)
  {
    forall p | 0 <= p < size :: ByteAt(v1, s, p) == Pending(v0, r, w, p)
  }

  /** No stale bytes are stored past the end of the file in a last fragment that no write touches. */
  ghost predicate TailClean(v0: Cells, r: Rec, w: seq<Pend>, size: nat)
    requires RecIn(v0, r)
  {
    forall p | r.Size() <= p < size && Quot(p, r.Fs()) < |r.locs| && !Touches(w, Quot(p, r.Fs()), r.Fs()) ::
      StoredByte(v0, r, Quot(p, r.Fs()), Rem(p, r.Fs())) == 0
  }

  lemma Untouched0(w: seq<Pend>, p: nat, fs: nat, base: Byte)
    requires fs > 0 && !Touches(w, Quot(p, fs), fs)
    ensures Over(w, p, base) == base
  {
    hide Quot, Times;
    InFrag(p, fs, Quot(p, fs));
    OverMisses(w, p, base);
  }

  /** The staged buffer of the position's fragment holds its pending byte. */
  lemma StagedByte(v: Cells, r: Rec, w: seq<Pend>, fs: nat, dirty: seq<Dirty>, n: nat, p: nat) returns (j: nat)
    requires RecIn(v, r) && fs > 0 && Stages(v, r, w, fs, dirty, n) && Quot(p, fs) < n && Touches(w, Quot(p, fs), fs)
    ensures j < |dirty| && dirty[j].frag == Quot(p, fs) && Rem(p, fs) < |dirty[j].plain| == fs
    ensures dirty[j].plain[Rem(p, fs)] == Pending(v, r, w, p)
  {
    hide RecIn, Quot, Rem, Times, Pending, Touches;
    j :| 0 <= j < |dirty| && dirty[j].frag == Quot(p, fs);
    DivMod(p, fs);
  }

  lemma StagesOrdered(v: Cells, r: Rec, w: seq<Pend>, fs: nat, dirty: seq<Dirty>, size: nat)
    requires RecIn(v, r) && fs > 0 && Stages(v, r, w, fs, dirty, Frags(size, fs))
    ensures Ordered(dirty, Frags(size, fs)) && Covering(dirty, size, fs)
  {
    hide RecIn, Frags, FragLen, Times;
    forall j | 0 <= j < |dirty| && dirty[j].frag < Frags(size, fs) ensures |dirty[j].plain| >= FragLen(size, fs,
        dirty[j].frag)
    {
      FragLenRange(size, fs, dirty[j].frag);
    }
  }

  /** At the stream's own fragment size the two agree exactly when no stale tail is uncovered. */
  lemma FrozenAgrees(v0: Cells, r: Rec, w: seq<Pend>, v1: Cells, s: Rec, dirty: seq<Dirty>, size: nat)
    requires RecIn(v0, r) && RecIn(v1, s) && r.Size() <= size && |s.locs| == Frags(size, s.Fs())
        && (r.locs != [] ==> r.exp == s.exp)
    requires Stages(v0, r, w, s.Fs(), dirty, |s.locs|) && Ordered(dirty, |s.locs|) && Covering(dirty, size, s.Fs())
    requires FoldExact(v0, r, v1, s, dirty, size, KeepFrags(r.Size(), s.Fs(), |r.locs|))
    ensures Agrees(v0, r, w, v1, s, size) <==> TailClean(v0, r, w, size)
  {
    hide Pow2, Frags, FragLen, FragIn, Shaped, StoredByte, Ordered, Covering, Quot, Rem, Times, ByteAt, FoldExact,
        Stages, Touches, Rec.Size, Over;
    var fs, keep := s.Fs(), KeepFrags(r.Size(), s.Fs(), |r.locs|);
    assert keep == |r.locs| by { KeepsAll(r, s); }
    assert r.locs != [] ==> r.Fs() == fs;
    FoldMeaning(v0, r, v1, s, dirty, size, r.Size());
    forall p | 0 <= p < size ensures Quot(p, fs) < |s.locs|
        && (Touches(w, Quot(p, fs), fs) <==> IsStaged(dirty, Quot(p, fs)))
    {
      Position(size, fs, p);
      StagesAt(v0, r, w, fs, dirty, |s.locs|, Quot(p, fs));
    }
    assert BoundaryClean(v0, r, dirty, size, r.Size(), keep) <==> TailClean(v0, r, w, size);
    forall p | 0 <= p < size && IsStaged(dirty, Quot(p, fs)) ensures ByteAt(v1, s, p) == Pending(v0, r, w, p)
    {
      FrozenStaged(v0, r, w, v1, s, dirty, size, p);
    }
    forall p | 0 <= p < size && !IsStaged(dirty, Quot(p, fs)) ensures Pending(v0, r, w, p) == if p < r.Size() then
        ByteAt(v0, r, p) else 0
    {
      Untouched0(w, p, fs, Committed0(v0, r, p));
    }
    assert FoldIdeal(v0, r, v1, s, dirty, size, r.Size()) <==>
      forall p | 0 <= p < size && !IsStaged(dirty, Quot(p, fs)) ::
          ByteAt(v1, s, p) == if p < r.Size() then ByteAt(v0, r, p) else 0 by {
      FirstClause(v0, r, v1, s, dirty, size, keep);
    }
  }

  lemma StagesAt(v: Cells, r: Rec, w: seq<Pend>, fs: nat, dirty: seq<Dirty>, n: nat, f: nat)
    requires RecIn(v, r) && Stages(v, r, w, fs, dirty, n) && f < n
    ensures Touches(w, f, fs) <==> IsStaged(dirty, f)
  {
    hide RecIn, Touches;
  }

  lemma KeepsAll(r: Rec, s: Rec)
    requires Shaped(r) && (r.locs != [] ==> r.exp == s.exp)
    ensures KeepFrags(r.Size(), s.Fs(), |r.locs|) == |r.locs|
  {
    hide Pow2, Frags, Rec.Size;
    SizeFrags(r);
    EmptySize(r);
    NonEmptySize(r);
  }

  lemma NonEmptySize(r: Rec)
    requires Shaped(r)
    ensures r.locs != [] ==> r.Size() > 0
  {}

  lemma FirstClause(v0: Cells, r: Rec, v1: Cells, s: Rec, dirty: seq<Dirty>, size: nat, keep: nat)
    requires RecIn(v0, r) && RecIn(v1, s) && |s.locs| == Frags(size, s.Fs()) && keep <= |r.locs|
    requires Ordered(dirty, |s.locs|) && Covering(dirty, size, s.Fs()) && FoldExact(v0, r, v1, s, dirty, size, keep)
    ensures forall j, o | 0 <= j < |dirty| && 0 <= o < FragLen(size, s.Fs(), dirty[j].frag) ::
              ByteAt(v1, s, Times(dirty[j].frag, s.Fs()) + o) == dirty[j].plain[o]
  {
    hide Pow2, Frags, FragLen, FragIn, StoredByte, Quot, Rem, Times, ByteAt, FoldExact;
    FoldUsesFragLens(dirty, size, s.Fs());
    forall j, o | 0 <= j < |dirty| && 0 <= o < FragLen(size, s.Fs(), dirty[j].frag)
      ensures ByteAt(v1, s, Times(dirty[j].frag, s.Fs()) + o) == dirty[j].plain[o]
    {
      FoldStagedAt(v0, r, v1, s, dirty, size, keep, j, o);
    }
  }

  lemma FrozenStaged(v0: Cells, r: Rec, w: seq<Pend>, v1: Cells, s: Rec, dirty: seq<Dirty>, size: nat, p: nat)
    requires RecIn(v0, r) && RecIn(v1, s) && |s.locs| == Frags(size, s.Fs()) && p < size
    requires Stages(v0, r, w, s.Fs(), dirty, |s.locs|) && Ordered(dirty, |s.locs|) && Covering(dirty, size, s.Fs())
    requires FoldExact(v0, r, v1, s, dirty, size, KeepFrags(r.Size(), s.Fs(), |r.locs|))
    requires Quot(p, s.Fs()) < |s.locs| && Touches(w, Quot(p, s.Fs()), s.Fs())
    ensures ByteAt(v1, s, p) == Pending(v0, r, w, p)
  {
    hide Pow2, Frags, FragLen, FragIn, StoredByte, Ordered, Covering, Quot, Rem, Times, ByteAt, FoldExact, Stages,
        Touches, Rec.Size, Over, Pending;
    var fs := s.Fs();
    var j := StagedByte(v0, r, w, fs, dirty, |s.locs|, p);
    DivMod(p, fs);
    InsideFrag(size, fs, Quot(p, fs), Rem(p, fs));
    FoldStagedAt(v0, r, v1, s, dirty, size, KeepFrags(r.Size(), fs, |r.locs|), j, Rem(p, fs));
  }

  lemma {:induction false} WantStaged(v: Cells, r: Rec, w: seq<Pend>, cut: nat, dirty: seq<Dirty>, p: nat)
    requires RecIn(v, r) && forall j | 0 <= j < |dirty| :: StagedRight(v, r, w, r.Fs(), dirty[j])
    ensures WantByte(v, r, cut, dirty, p) == if IsStaged(dirty, Quot(p, r.Fs())) then
        Pending(v, r, w, p) else BaseByte(v, r, cut, p)
    decreases |dirty|
  {
    hide RecIn, Pow2, Quot, Rem, Times, Pending, BaseByte;
    if dirty != [] {
      var n, fs := |dirty| - 1, r.Fs();
      assert forall j | 0 <= j < n :: dirty[..n][j] == dirty[j];
      WantStaged(v, r, w, cut, dirty[..n], p);
      DivMod(p, fs);
      if dirty[n].frag == Quot(p, fs) {
        assert StagedRight(v, r, w, fs, dirty[n]);
      } else {
        assert IsStaged(dirty, Quot(p, fs)) <==> IsStaged(dirty[..n], Quot(p, fs)) by {
          if IsStaged(dirty, Quot(p, fs)) { var j :| 0 <= j < |dirty| && dirty[j].frag == Quot(p, fs);
              assert dirty[..n][j].frag == Quot(p, fs); }
        }
      }
    }
  }

  /** Reading the record through the overlay again gives the same bytes. */
  ghost predicate Absorbs(w: seq<Pend>, v: Cells, s: Rec, size: nat)
    requires RecIn(v, s)
  {
    forall p | 0 <= p < size :: Over(w, p, ByteAt(v, s, p)) == ByteAt(v, s, p)
  }

  /** A finished fold has absorbed the overlay, whether or not it agrees on the bytes no write covers. */
  lemma FrozenAbsorbs(v0: Cells, r: Rec, w: seq<Pend>, v1: Cells, s: Rec, dirty: seq<Dirty>, size: nat)
    requires RecIn(v0, r) && RecIn(v1, s) && |s.locs| == Frags(size, s.Fs())
    requires Stages(v0, r, w, s.Fs(), dirty, |s.locs|) && Ordered(dirty, |s.locs|) && Covering(dirty, size, s.Fs())
    requires FoldExact(v0, r, v1, s, dirty, size, KeepFrags(r.Size(), s.Fs(), |r.locs|))
    ensures Absorbs(w, v1, s, size)
  {
    hide Pow2, Frags, FragLen, FragIn, StoredByte, Ordered, Covering, Quot, Rem, Times, ByteAt, FoldExact, Stages,
        Touches, Rec.Size, Over;
    var fs := s.Fs();
    forall p | 0 <= p < size ensures Over(w, p, ByteAt(v1, s, p)) == ByteAt(v1, s, p)
    {
      Position(size, fs, p);
      if Touches(w, Quot(p, fs), fs) {
        FrozenStaged(v0, r, w, v1, s, dirty, size, p);
        OverTwice(w, p, Committed0(v0, r, p));
      } else {
        Untouched0(w, p, fs, ByteAt(v1, s, p));
      }
    }
  }

  /** What agrees with the overlay has absorbed it. */
  lemma AgreedAbsorbs(v0: Cells, r: Rec, w: seq<Pend>, v1: Cells, s: Rec, size: nat)
    requires RecIn(v0, r) && RecIn(v1, s) && Agrees(v0, r, w, v1, s, size)
    ensures Absorbs(w, v1, s, size)
  {
    hide RecIn, ByteAt, Over;
    forall p | 0 <= p < size ensures Over(w, p, ByteAt(v1, s, p)) == ByteAt(v1, s, p)
        { OverTwice(w, p, Committed0(v0, r, p)); }
  }

  /** A re-cut always agrees: it cuts at the byte. */
  lemma RecutAgrees(v0: Cells, r: Rec, w: seq<Pend>, v1: Cells, s: Rec, dirty: seq<Dirty>, size: nat)
    requires RecIn(v0, r) && RecIn(v1, s) && Stages(v0, r, w, r.Fs(), dirty, Frags(size, r.Fs()))
    requires forall p | 0 <= p < size :: ByteAt(v1, s, p) == WantByte(v0, r, r.Size(), dirty, p)
    ensures Agrees(v0, r, w, v1, s, size)
  {
    hide Pow2, Quot, Rem, Times, Touches, FragIn, Frags, ByteAt, WantByte, Rec.Size, Over, StagedRight;
    forall p | 0 <= p < size ensures ByteAt(v1, s, p) == Pending(v0, r, w, p)
    {
      WantStaged(v0, r, w, r.Size(), dirty, p);
      Position(size, r.Fs(), p);
      StagesAt(v0, r, w, r.Fs(), dirty, Frags(size, r.Fs()), Quot(p, r.Fs()));
      if !IsStaged(dirty, Quot(p, r.Fs())) { Untouched0(w, p, r.Fs(), Committed0(v0, r, p)); }
    }
  }

  /** Folds the overlay into a successor record through the ordinary commit. */
  method Checkpoint(io: ContentIo, wr: Writer, r: Rec, w: seq<Pend>, pins: seq<nat>) returns (st: FoldStatus, s: Rec,
      size: nat)
    requires io.Valid() && RecIn(io.view, r) && VV.Wf(r.vv) && |pins| == |r.locs| && Sorted(w)
    modifies io`dev, io`view, io`saved, io`retired, io`ws, io`es, io.fa
    ensures io.Valid() && Logged(old(io.ws), old(io.es), io.ws, io.es, old(FirstTouch(io, r)))
    ensures size >= r.Size() && (forall i | 0 <= i < |w| :: w[i].End() <= size)
    ensures size == r.Size() || exists i :: 0 <= i < |w| && w[i].End() == size
    ensures !st.BadRequest?
    ensures st.OutOfSpace? ==>
      var fs := Pow2(FoldExp(r, size));
      old(io.Gap()) < if Recuts(r, size) then RecutNeed(pins, r.Fs(), size, Pow2(Band(size)))
                      else Frags(size, fs) * (2 * fs + 8296)
    ensures st.Done? ==> RecIn(io.view, s) && s.Size() == size
    ensures st.Done? ==> Absorbs(w, io.view, s, size)
    ensures st.Done? ==>
        (Agrees(old(io.view), r, w, io.view, s, size) <==> (Recuts(r, size) || TailClean(old(io.view), r, w, size)))
    ensures st.Done? ==>
        forall p, i | 0 <= p < size && Tops(w, i, p) :: ByteAt(io.view, s, p) == w[i].data[p - w[i].off]
    ensures st.Done? && (Recuts(r, size) || TailClean(old(io.view), r, w, size)) ==>
        forall p | 0 <= p < size && Bare(w, p) ::
          ByteAt(io.view, s, p) == if p < r.Size() then ByteAt(old(io.view), r, p) else 0
  {
    hide ContentIo.Valid, Tops, Bare, Logged, FirstTouch, SealedNow, Pow2, Frags, FragIn, VV.Wf, Rec.Size, Stages,
        Sorted,
        FoldExact, WantByte, Agrees, Absorbs, Dotted, ByteAt, Ordered, Covering, TailClean, FoldNeed, RecutNeed;
    size := MaxEnd(w);
    if size < r.Size() { size := r.Size(); }
    NothingLogged(io);
    LoggedLess(io.ws, io.es, io.ws, io.es, true, FirstTouch(io, r));
    if size == 0 {
      st, s := Done, r;
      NothingToRead(io.view, r, w);
      AgreedAbsorbs(io.view, r, w, io.view, r, 0);
      Shown(io.view, r, w, io.view, r, 0);
      return;
    }
    ghost var v0 := io.view;
    var exp := if r.locs != [] then r.exp else Band(size);
    var fs := Pow2(exp);
    var dirty := StageAll(io, r, w, fs, Frags(size, fs));
    assert forall j | 0 <= j < |dirty| :: |dirty[j].plain| == fs by
        { StagesLens(v0, r, w, fs, dirty, Frags(size, fs)); }
    StagesOrdered(v0, r, w, fs, dirty, size);
    StagesNeed(v0, r, w, fs, dirty, Frags(size, fs));
    ghost var sync;
    st, s, sync := CommitUnit(io, wr, r, size, size, dirty, pins);
    if st.Done? {
      if Recuts(r, size) {
        RecutAgrees(v0, r, w, io.view, s, dirty, size);
        AgreedAbsorbs(v0, r, w, io.view, s, size);
      } else {
        FrozenAbsorbs(v0, r, w, io.view, s, dirty, size);
        FrozenAgrees(v0, r, w, io.view, s, dirty, size);
      }
      Shown(v0, r, w, io.view, s, size);
    }
  }

  /** What absorbing and agreeing mean byte by byte. */
  lemma Shown(v0: Cells, r: Rec, w: seq<Pend>, v1: Cells, s: Rec, size: nat)
    requires RecIn(v0, r) && RecIn(v1, s) && Absorbs(w, v1, s, size)
    ensures forall p, i | 0 <= p < size && Tops(w, i, p) :: ByteAt(v1, s, p) == w[i].data[p - w[i].off]
    ensures Agrees(v0, r, w, v1, s, size) ==>
        forall p | 0 <= p < size && Bare(w, p) :: ByteAt(v1, s, p) == if p < r.Size() then ByteAt(v0, r, p) else 0
  {
    hide RecIn, ByteAt, Over, Bare, Rec.Size;
    forall p, i | 0 <= p < size && Tops(w, i, p) ensures ByteAt(v1, s, p) == w[i].data[p - w[i].off] {
      OverTop(w, i, p, ByteAt(v1, s, p));
    }
    if Agrees(v0, r, w, v1, s, size) {
      forall p | 0 <= p < size && Bare(w, p) ensures ByteAt(v1, s, p) == if p < r.Size() then ByteAt(v0, r, p) else 0 {
        OverBare(w, p, Committed0(v0, r, p));
      }
    }
  }

  /** A fragment is staged for every write that reaches past its start and begins before its end. */
  lemma TouchesIff(w: seq<Pend>, f: nat, fs: nat)
    ensures Touches(w, f, fs) <==>
            exists i :: 0 <= i < |w| && w[i].off < f * fs + fs && w[i].off + |w[i].data| > f * fs
  {
    if i :| 0 <= i < |w| && w[i].off < f * fs + fs && w[i].off + |w[i].data| > f * fs {
      assert w[i].off < Times(f, fs) + fs && w[i].End() > Times(f, fs);
    }
  }

  lemma {:induction false} PlainNeed(dirty: seq<Dirty>, fs: nat)
    requires forall j | 0 <= j < |dirty| :: dirty[j].pins == 0
    ensures FoldNeed(dirty, fs) == Times(|dirty|, 2 * fs + 8296)
    decreases |dirty|
  {
    hide Times;
    TimesSucc(0, 2 * fs + 8296);
    if dirty != [] {
      PlainNeed(dirty[..|dirty| - 1], fs);
      TimesSucc(|dirty| - 1, 2 * fs + 8296);
    }
  }

  lemma {:induction false} RisingCount(dirty: seq<Dirty>, m: nat)
    requires m < |dirty| && forall j | 0 < j < |dirty| :: dirty[j - 1].frag < dirty[j].frag
    ensures m <= dirty[m].frag
  {
    if m > 0 { RisingCount(dirty, m - 1); }
  }

  /** Staging takes no pins and at most every fragment once. */
  lemma StagesNeed(v: Cells, r: Rec, w: seq<Pend>, fs: nat, dirty: seq<Dirty>, n: nat)
    requires RecIn(v, r) && Stages(v, r, w, fs, dirty, n)
    ensures FoldNeed(dirty, fs) <= n * (2 * fs + 8296)
  {
    hide RecIn, Touches, FoldNeed, Times, Pending;
    PlainNeed(dirty, fs);
    if dirty != [] { RisingCount(dirty, |dirty| - 1); }
    TimesLe(|dirty|, n, 2 * fs + 8296);
    TimesIs(n, 2 * fs + 8296);
  }

  lemma StagesLens(v: Cells, r: Rec, w: seq<Pend>, fs: nat, dirty: seq<Dirty>, n: nat)
    requires RecIn(v, r) && Stages(v, r, w, fs, dirty, n)
    ensures forall j | 0 <= j < |dirty| :: |dirty[j].plain| == fs
  {
    hide RecIn, Touches;
  }

  lemma NothingToRead(v: Cells, r: Rec, w: seq<Pend>)
    requires RecIn(v, r)
    ensures Agrees(v, r, w, v, r, 0) && TailClean(v, r, w, 0)
  {}
}
