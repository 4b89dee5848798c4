/**
 Growth over a fragment-size band: the whole stream is cut again at the new
 fragment size under one fresh dot (kernel/sfs_cow.c:795-1045), and the commit that
 chooses between this and the frozen-size fold (kernel/sfs_cow.c:1138-1210).
 */
module Rechunk {
  import opened Base
  import F = Falloc
  import opened Undo
  import opened ContentIo
  import opened Fold
  import VV = VersionVector

  // ---------------------------------------------------------------- the size schedule

  /** Fragment-size exponent of a stream: 12, 14, 18 or 22. */
  function Band(size: nat): nat {
    if size >= 0x400_0000 then 22 else if size >= 0x4_0000 then 18 else if size >= 0x4000 then 14 else 12
  }

  /** The square schedule, step exponents 10 + 2^k, clamped to [12, 22]. */
  method DeriveExp(size: nat) returns (e: nat)
    ensures e == Band(size)
  {
    Powers();
    e := 12;
    if size == 0 { return; }
    var k, shift := 1, 2;
    while shift < 52
      invariant (k == 1 && shift == 2 && e == 12) || (k == 2 && shift == 4 && e == 12 && size >= 0x1000)
        || (k == 3 && shift == 8 && e == 14 && size >= 0x4000) || (k == 4 && shift == 16 && e == 18 && size >= 0x4_0000)
      decreases 5 - k
    {
      var step := 10 + shift;
      if size / Pow2(step) < 1 { break; }
      e := if step < 22 then step else 22;
      if step >= 22 { break; }
      k, shift := k + 1, 2 * shift;
    }
  }

  lemma Powers()
    ensures Pow2(12) == 0x1000 && Pow2(14) == 0x4000 && Pow2(18) == 0x4_0000 && Pow2(22) == 0x40_0000
        && Pow2(26) == 0x400_0000
  {
    assert Pow2(6) == 64;
    assert Pow2(12) == 0x1000;
    assert Pow2(18) == 0x4_0000;
    assert Pow2(24) == 0x100_0000;
  }

  /** Step exponents divide each other. */
  lemma {:induction false} PowSum(a: nat, b: nat)
    ensures Pow2(a + b) == Times(Pow2(b), Pow2(a))
    decreases b
  {
    if b > 0 {
      PowSum(a, b - 1);
      assert Times(Pow2(b), Pow2(a)) == 2 * Times(Pow2(b - 1), Pow2(a));
    }
  }

  // ---------------------------------------------------------------- the wanted bytes

  /** Old byte below the cut, zero from there on. */
  ghost function BaseByte(v: Cells, r: Rec, cut: nat, p: nat): Byte
    requires RecIn(v, r)
  {
    if p < cut then ByteAt(v, r, p) else 0
  }

  /** The last staged buffer for the position's old fragment wins. */
  ghost function WantByte(v: Cells, r: Rec, cut: nat, dirty: seq<Dirty>, p: nat): Byte
    requires RecIn(v, r)
    decreases |dirty|
  {
    if dirty == [] then BaseByte(v, r, cut, p)
    else
      var d := dirty[|dirty| - 1];
      if d.frag == Quot(p, r.Fs()) && Rem(p, r.Fs()) < |d.plain| then d.plain[Rem(p, r.Fs())]
      else WantByte(v, r, cut, dirty[..|dirty| - 1], p)
  }

  /** Each buffer covers the part of its old fragment that lies inside the new size. */
  ghost predicate CoversOld(dirty: seq<Dirty>, size: nat, fs: nat)
    requires fs > 0
  {
    forall j | 0 <= j < |dirty| :: Times(dirty[j].frag, fs) + |dirty[j].plain| >= size || |dirty[j].plain| >= fs
  }

  method CopyInto(buf: array<Byte>, at: nat, src: seq<Byte>, from: nat, n: nat)
    requires at + n <= buf.Length && from + n <= |src|
    modifies buf
    ensures forall x | 0 <= x < buf.Length :: buf[x] == if at <= x < at + n then src[from + (x - at)] else old(buf[x])
  {
    for i := 0 to n
      invariant forall x | 0 <= x < buf.Length ::
          buf[x] == if at <= x < at + i then src[from + (x - at)] else old(buf[x])
    {
      buf[at + i] := src[from + i];
    }
  }

  lemma InFrag(p: nat, fs: nat, f: nat)
    requires fs > 0
    ensures Quot(p, fs) == f <==> Times(f, fs) <= p < Times(f, fs) + fs
    ensures Quot(p, fs) == f ==> Rem(p, fs) == p - Times(f, fs)
  {
    hide Quot, Rem, Times;
    DivMod(p, fs);
    if Times(f, fs) <= p < Times(f, fs) + fs { Unique(p, fs, f, p - Times(f, fs)); }
  }

  /** Where the carried part of old fragment o ends: at the cut, or at the fragment's own end. */
  lemma CarryEnd(r: Rec, o: nat, cut: nat)
    requires Shaped(r) && o < |r.locs| && cut <= r.Size() && Times(o, r.Fs()) < cut
    ensures var off, len := Times(o, r.Fs()), Logical(r, o);
      len <= r.Fs() && (cut - off <= len || len == r.Fs())
  {
    hide Pow2, Times;
  }

  lemma PastEnd(r: Rec, cut: nat)
    requires Shaped(r) && cut <= r.Size()
    ensures cut <= Times(|r.locs|, r.Fs())
  {
    hide Pow2, Times;
    if r.locs != [] { TimesSucc(|r.locs| - 1, r.Fs()); }
  }

  /** The old bytes below the cut, windowed to the buffer. */
  method CarryOld(io: ContentIo, r: Rec, cut: nat, o0: nat, buf: array<Byte>)
    requires io.Valid() && RecIn(io.view, r) && cut <= r.Size() && forall x | 0 <= x < buf.Length :: buf[x] == 0
    modifies buf
    ensures io.Valid() && RecIn(io.view, r)
    ensures forall x | 0 <= x < buf.Length :: buf[x] == BaseByte(io.view, r, cut, Times(o0, r.Fs()) + x)
  {
    hide ContentIo.Valid, Pow2, Times, FragIn, Quot, Rem, StoredByte, Rec.Size;
    var ofs := r.Fs();
    var start, wend := Times(o0, ofs), Times(o0, ofs) + buf.Length;
    var o := o0;
    PastEnd(r, cut);
    while o < |r.locs| && Times(o, ofs) < cut && Times(o, ofs) < wend
      invariant o0 <= o && io.Valid() && (o <= |r.locs| || o == o0)
      invariant forall x | 0 <= x < buf.Length ::
          buf[x] == if start + x < Times(o, ofs) then BaseByte(io.view, r, cut, start + x) else 0
      decreases |r.locs| - o
    {
      var off := Times(o, ofs);
      TimesLe(o0, o, ofs);
      TimesSucc(o, ofs);
      CarryEnd(r, o, cut);
      var g := ReadFrag(io, r, o);
      var slen := if cut - off < |g.plain| then cut - off else |g.plain|;
      var send := off + slen;
      var lo, hi := if off > start then off else start, if send < wend then send else wend;
      ghost var was := buf[..];
      if lo < hi { CopyInto(buf, lo - start, g.plain, lo - off, hi - lo); }
      forall x | 0 <= x < buf.Length
        ensures buf[x] == if start + x < Times(o + 1, ofs) then BaseByte(io.view, r, cut, start + x) else 0
      {
        InFrag(start + x, ofs, o);
        assert was[x] == if start + x < off then BaseByte(io.view, r, cut, start + x) else 0;
      }
      o := o + 1;
    }
    if o > |r.locs| { TimesLe(|r.locs|, o, ofs); }
  }

  /** Lays the staged buffers over the window, later ones on top. */
  method Overlay(buf: array<Byte>, start: nat, size: nat, dirty: seq<Dirty>, r: Rec, ghost v: Cells, ghost cut: nat)
    requires RecIn(v, r) && start + buf.Length <= size && CoversOld(dirty, size, r.Fs())
    requires forall x | 0 <= x < buf.Length :: buf[x] == BaseByte(v, r, cut, start + x)
    modifies buf
    ensures forall x | 0 <= x < buf.Length :: buf[x] == WantByte(v, r, cut, dirty, start + x)
  {
    hide Pow2, Times, FragIn, Quot, Rem, RecIn, BaseByte;
    var ofs, wend := r.Fs(), start + buf.Length;
    var d := 0;
    while d < |dirty|
      invariant 0 <= d <= |dirty|
      invariant forall x | 0 <= x < buf.Length :: buf[x] == WantByte(v, r, cut, dirty[..d], start + x)
    {
      var off := Times(dirty[d].frag, ofs);
      ghost var was := buf[..];
      if off < size && off < wend {
        var len := if size - off < ofs then size - off else ofs;
        var send := off + len;
        if send > start {
          var lo, hi := if off > start then off else start, if send < wend then send else wend;
          if lo < hi { CopyInto(buf, lo - start, dirty[d].plain, lo - off, hi - lo); }
        }
      }
      assert dirty[..d + 1][..d] == dirty[..d] && dirty[..d + 1][d] == dirty[d];
      forall x | 0 <= x < buf.Length ensures buf[x] == WantByte(v, r, cut, dirty[..d + 1], start + x)
      {
        InFrag(start + x, ofs, dirty[d].frag);
        assert was[x] == WantByte(v, r, cut, dirty[..d], start + x);
      }
      d := d + 1;
    }
    assert dirty[..d] == dirty;
  }

  /** Everything in v is still there in v1. */
  ghost predicate Grows(v: Cells, v1: Cells) { forall x | x in v :: x in v1 && v1[x] == v[x] }

  lemma RecStays(v: Cells, v1: Cells, r: Rec)
    requires RecIn(v, r) && Grows(v, v1)
    ensures RecIn(v1, r) && forall p: nat :: ByteAt(v1, r, p) == ByteAt(v, r, p)
  {
    hide Pow2, Quot, Rem, Blob.Len;
    forall i | 0 <= i < |r.locs| ensures FragIn(v1, r, i) { assert FragIn(v, r, i); }
    forall p: nat ensures ByteAt(v1, r, p) == ByteAt(v, r, p)
    {
      var i := Quot(p, r.Fs());
      if i < |r.locs| { assert FragIn(v, r, i) && FragIn(v1, r, i); }
    }
  }

  lemma {:induction false} WantStays(v: Cells, v1: Cells, r: Rec, cut: nat, dirty: seq<Dirty>, p: nat)
    requires RecIn(v, r) && RecIn(v1, r) && ByteAt(v1, r, p) == ByteAt(v, r, p)
    ensures WantByte(v1, r, cut, dirty, p) == WantByte(v, r, cut, dirty, p)
    decreases |dirty|
  {
    hide RecIn, ByteAt;
    if dirty != [] { WantStays(v, v1, r, cut, dirty[..|dirty| - 1], p); }
  }

  /** The plaintext of one new fragment, built without a file-sized buffer. */
  method Materialise(io: ContentIo, r: Rec, cut: nat, dirty: seq<Dirty>, size: nat, start: nat, n: nat,
      o0: nat) returns (plain: seq<Byte>)
    requires io.Valid() && RecIn(io.view, r) && cut <= r.Size() && start + n <= size && CoversOld(dirty, size, r.Fs())
    requires start == Times(o0, r.Fs())
    ensures |plain| == n && forall x | 0 <= x < n :: plain[x] == WantByte(io.view, r, cut, dirty, start + x)
  {
    hide ContentIo.Valid, Pow2, FragIn, WantByte, CoversOld;
    var buf := new Byte[n](_ => 0);
    CarryOld(io, r, cut, o0, buf);
    Overlay(buf, start, size, dirty, r, io.view, cut);
    plain := buf[..];
  }

  // ---------------------------------------------------------------- the old fragments

  /** Unpinned whole-block fragments go to the deferred-free list, in order. */
  ghost function Freed(r: Rec, pins: seq<nat>, n: nat): seq<(nat, nat)>
    requires n <= |r.locs| == |pins|
  {
    if n == 0 then []
    else
      var l := r.locs[n - 1];
      Freed(r, pins, n - 1) + (if !l.Hole() && pins[n - 1] == 0 && l.len >= BLOCK then [(l.addr, l.len)] else [])
  }

  ghost predicate History(v0: Cells, v: Cells, r: Rec, pins: seq<nat>, n: nat)
    requires n <= |r.locs| == |pins|
  {
    forall i | 0 <= i < n && !r.locs[i].Hole() && pins[i] > 0 :: Tailed(v0, v, r.locs[i].addr, pins[i])
  }

  lemma HistoryGrows(v0: Cells, v: Cells, v1: Cells, r: Rec, pins: seq<nat>, n: nat)
    requires n <= |r.locs| == |pins| && History(v0, v, r, pins, n) && Grows(v, v1)
    ensures History(v0, v1, r, pins, n)
  {
    forall i | 0 <= i < n && !r.locs[i].Hole() && pins[i] > 0 ensures Tailed(v0, v1, r.locs[i].addr, pins[i]) {
      assert Tailed(v0, v, r.locs[i].addr, pins[i]);
      var t :| t in v && t !in v0 && IsCopy(v, t, v0[r.locs[i].addr], pins[i]);
      assert IsCopy(v1, t, v0[r.locs[i].addr], pins[i]);
    }
  }

  /** Freed are the unpinned fragments that fill whole blocks, and nothing else. */
  lemma {:induction false} FreedIff(r: Rec, pins: seq<nat>, n: nat, a: nat, len: nat)
    requires n <= |r.locs| == |pins|
    ensures (a, len) in Freed(r, pins, n) <==> exists i :: 0 <= i < n && GoesFree(r, pins, i, a, len)
    decreases n
  {
    if n > 0 {
      FreedIff(r, pins, n - 1, a, len);
      assert GoesFree(r, pins, n - 1, a, len) ==> exists i :: 0 <= i < n && GoesFree(r, pins, i, a, len);
    }
  }

  ghost predicate GoesFree(r: Rec, pins: seq<nat>, i: int, a: nat, len: nat)
    requires 0 <= i < |r.locs| == |pins|
  {
    pins[i] == 0 && r.locs[i] == Loc(a, len) && len >= 4096
  }

  /** Gap enough to copy the pinned ones of the first n fragments to the tail. */
  ghost function HistoryNeed(pins: seq<nat>, fs: nat, n: nat): nat
    requires n <= |pins|
  {
    if n == 0 then 0
    else HistoryNeed(pins, fs, n - 1) + (if pins[n - 1] == 0 then 0 else fs + 16 * pins[n - 1] + 4184)
  }

  lemma {:induction false} HistoryNeedMono(pins: seq<nat>, fs: nat, n: nat, m: nat)
    requires n <= m <= |pins|
    ensures HistoryNeed(pins, fs, n) <= HistoryNeed(pins, fs, m)
    decreases m
  {
    if n < m { HistoryNeedMono(pins, fs, n, m - 1); }
  }

  /** Pinned fragments are copied to the tail as history, the others freed once the header flips. */
  method ReleaseOld(io: ContentIo, r: Rec, pins: seq<nat>) returns (ok: bool)
    requires io.Valid() && RecIn(io.view, r) && |pins| == |r.locs|
    modifies io`dev, io`view, io`retired, io`ws, io`es, io.fa
    ensures io.Valid() && Grows(old(io.view), io.view) && Logged(old(io.ws), old(io.es), io.ws, io.es, true)
    ensures ok ==>
        io.retired == old(io.retired) + Freed(r, pins, |r.locs|) && History(old(io.view), io.view, r, pins, |r.locs|)
    ensures io.Gap() >= old(io.Gap()) - HistoryNeed(pins, r.Fs(), |pins|)
    ensures !ok ==> old(io.Gap()) < HistoryNeed(pins, r.Fs(), |pins|)
  {
    hide ContentIo.Valid, Pow2, Blob.Len, Logged;
    ok := true;
    var f := 0;
    ReadableShort(io.view, r);
    NothingLogged(io);
    while f < |r.locs|
      invariant 0 <= f <= |r.locs| && io.Valid() && Grows(old(io.view), io.view)
          && Logged(old(io.ws), old(io.es), io.ws, io.es, true)
      invariant io.retired == old(io.retired) + Freed(r, pins, f) && History(old(io.view), io.view, r, pins, f)
      invariant io.Gap() >= old(io.Gap()) - HistoryNeed(pins, r.Fs(), f)
    {
      HistoryNeedMono(pins, r.Fs(), f + 1, |pins|);
      ghost var v, ws1, es1 := io.view, io.ws, io.es;
      var l := r.locs[f];
      assert FragIn(old(io.view), r, f);
      if !l.Hole() {
        if pins[f] == 0 {
          if l.len >= BLOCK { io.Retire(l.addr, l.len); }
        } else {
          var t := io.Evict(l.addr, pins[f], false);
          LoggedTwice(old(io.ws), old(io.es), ws1, es1, io.ws, io.es, true);
          if t == 0 { ok := false; return; }
          assert IsCopy(io.view, t, old(io.view)[l.addr], pins[f]);
        }
      }
      HistoryGrows(old(io.view), v, io.view, r, pins, f);
      f := f + 1;
    }
  }

  // ---------------------------------------------------------------- the new fragments

  /** The plaintext of new fragment i, as wanted. */
  ghost predicate Right(v0: Cells, r: Rec, cut: nat, dirty: seq<Dirty>, size: nat, fs: nat, i: nat, plain: seq<Byte>)
    requires RecIn(v0, r) && fs > 0 && i < Frags(size, fs)
  {
    && |plain| == FragLen(size, fs, i)
    && forall x | 0 <= x < |plain| :: plain[x] == WantByte(v0, r, cut, dirty, Times(i, fs) + x)
  }

  /** Fragments 0..m have been sealed and placed at pairwise different addresses. */
  ghost predicate Placed(view: Cells, w: Writer, size: nat, fs: nat, dot: nat, locs: seq<Loc>, plains: seq<seq<Byte>>)
    requires fs >= 16
  {
    && |plains| == |locs| <= Frags(size, fs)
    && (forall i | 0 <= i < |locs| ::
        |plains[i]| == FragLen(size, fs, i) && PlacedAt(view, w, size, fs, dot, locs[i], i, plains[i]))
    && (forall i, j | 0 <= i < j < |locs| :: locs[i].addr != locs[j].addr)
  }

  ghost predicate PlacedAt(view: Cells, w: Writer, size: nat, fs: nat, dot: nat, l: Loc, i: nat, plain: seq<Byte>)
    requires fs >= 16 && i < Frags(size, fs) && |plain| == FragLen(size, fs, i)
  {
    var b := SealOf(w, Dirty(i, plain, 0), size, fs, dot);
    l.addr > 0 && l.len == b.Len() && l.addr in view && view[l.addr] == Slot(b)
  }

  lemma PlacedMore(view: Cells, w: Writer, size: nat, fs: nat, dot: nat, locs: seq<Loc>, plains: seq<seq<Byte>>, a: nat,
      plain: seq<Byte>)
    requires fs >= 16 && Placed(view, w, size, fs, dot, locs, plains) && |locs| < Frags(size, fs)
        && |plain| == FragLen(size, fs, |locs|)
    requires a > 0 && a !in view
    ensures var b := SealOf(w, Dirty(|locs|, plain, 0), size, fs, dot);
            Placed(view[a := Slot(b)], w, size, fs, dot, locs + [Loc(a, b.Len())], plains + [plain])
  {
    hide Frags, FragLen, SealOf, Blob.Len;
    var b := SealOf(w, Dirty(|locs|, plain, 0), size, fs, dot);
    var v1, l1, p1 := view[a := Slot(b)], locs + [Loc(a, b.Len())], plains + [plain];
    forall i | 0 <= i < |l1| ensures |p1[i]| == FragLen(size, fs, i) && PlacedAt(v1, w, size, fs, dot, l1[i], i, p1[i])
    {
      if i < |locs| { assert PlacedAt(view, w, size, fs, dot, locs[i], i, plains[i]); }
    }
    forall i | 0 <= i < |locs| ensures locs[i].addr != a
        { assert PlacedAt(view, w, size, fs, dot, locs[i], i, plains[i]); }
  }

  lemma Multiple(f: nat, k: nat, ofs: nat)
    ensures Times(f, Times(k, ofs)) == Times(Times(f, k), ofs)
  {
    assert f * (k * ofs) == (f * k) * ofs;
  }

  /** Seals and places every fragment of the new geometry. */
  method Resplit(io: ContentIo, w: Writer, r: Rec, cut: nat, dirty: seq<Dirty>, size: nat, nexp: nat, dot: nat,
      ghost v0: Cells)
    returns (ok: bool, locs: seq<Loc>, ghost plains: seq<seq<Byte>>)
    requires io.Valid() && RecIn(v0, r) && Grows(v0, io.view) && cut <= r.Size() && r.exp < nexp <= 22
        && CoversOld(dirty, size, r.Fs())
    modifies io`dev, io`view, io`ws, io`es, io.fa
    ensures io.Valid() && Grows(v0, io.view) && Grows(old(io.view), io.view)
        && Logged(old(io.ws), old(io.es), io.ws, io.es, true)
    ensures Pow2(nexp) >= 16
    ensures ok ==>
      && Placed(io.view, w, size, Pow2(nexp), dot, locs, plains) && |locs| == Frags(size, Pow2(nexp))
      && forall i | 0 <= i < |plains| :: Right(v0, r, cut, dirty, size, Pow2(nexp), i, plains[i])
    ensures !ok ==> old(io.Gap()) < Times(Frags(size, Pow2(nexp)), Pow2(nexp) + 4112)
  {
    hide ContentIo.Valid, Pow2, Frags, FragLen, FragIn, SealOf, Blob.Len, WantByte, CoversOld, Times, Quot, Rem,
        Rec.Size, PlacedAt, Logged;
    Sixteen(nexp);
    NothingLogged(io);
    var nfs, ofs, k := Pow2(nexp), r.Fs(), Pow2(nexp - r.exp);
    PowSum(r.exp, nexp - r.exp);
    var n := Frags(size, nfs);
    ok, locs, plains := true, [], [];
    TimesSucc(0, nfs + 4112);
    while |locs| < n
      invariant |locs| <= n && io.Valid() && Grows(v0, io.view) && Grows(old(io.view), io.view)
          && Placed(io.view, w, size, nfs, dot, locs, plains)
      invariant forall i | 0 <= i < |plains| :: Right(v0, r, cut, dirty, size, nfs, i, plains[i])
      invariant Logged(old(io.ws), old(io.es), io.ws, io.es, true)
      invariant io.Gap() >= old(io.Gap()) - Times(|locs|, nfs + 4112)
      decreases n - |locs|
    {
      var f := |locs|;
      var start, plen := Times(f, nfs), FragLen(size, nfs, f);
      Multiple(f, k, ofs);
      FragInside(size, nfs, f);
      RecStays(v0, io.view, r);
      var plain := Materialise(io, r, cut, dirty, size, start, plen, Times(f, k));
      forall x | 0 <= x < plen ensures plain[x] == WantByte(v0, r, cut, dirty, start + x)
      {
        WantStays(v0, io.view, r, cut, dirty, start + x);
      }
      var b := SealOf(w, Dirty(f, plain, 0), size, nfs, dot);
      BlobLen(b, nfs);
      TimesSucc(f, nfs + 4112);
      TimesLe(f + 1, n, nfs + 4112);
      ghost var v, ws1, es1 := io.view, io.ws, io.es;
      var a := io.Place(b);
      LoggedTwice(old(io.ws), old(io.es), ws1, es1, io.ws, io.es, true);
      if a == 0 { ok := false; return; }
      PlacedMore(v, w, size, nfs, dot, locs, plains, a, plain);
      locs, plains := locs + [Loc(a, b.Len())], plains + [plain];
    }
  }

  lemma BlobLen(b: Blob, fs: nat)
    requires |b.plain| <= fs
    ensures b.Len() <= fs + 16
  {}

  lemma FragInside(size: nat, fs: nat, f: nat)
    requires fs > 0 && f < Frags(size, fs)
    ensures Times(f, fs) + FragLen(size, fs, f) <= size
  {
    FragStart(size, fs, f);
  }

  /** The re-cut record reads back exactly the wanted bytes. */
  lemma ResplitRec(view: Cells, v0: Cells, w: Writer, r: Rec, cut: nat, dirty: seq<Dirty>, size: nat, dot: nat, s: Rec,
      plains: seq<seq<Byte>>)
    requires RecIn(v0, r) && 12 <= s.exp <= 22 && s.Fs() >= 16 && size > 0 && |s.locs| == Frags(size, s.Fs())
        && s.suites == []
    requires s.suite == w.suite && s.last == LastLen(size, s.Fs()) && s.dots == seq(|s.locs|, _ => dot)
    requires Placed(view, w, size, s.Fs(), dot, s.locs, plains)
    requires forall i | 0 <= i < |plains| :: Right(v0, r, cut, dirty, size, s.Fs(), i, plains[i])
    ensures RecIn(view, s) && s.Size() == size
    ensures forall p | 0 <= p < size :: ByteAt(view, s, p) == WantByte(v0, r, cut, dirty, p)
  {
    hide Pow2, Frags, FragLen, LastLen, SealOf, Blob.Len, WantByte, Times, Quot, Rem;
    Geometry(size, s.Fs());
    forall i | 0 <= i < |s.locs| ensures FragIn(view, s, i)
    {
      assert PlacedAt(view, w, size, s.Fs(), dot, s.locs[i], i, plains[i]);
    }
    forall p | 0 <= p < size ensures ByteAt(view, s, p) == WantByte(v0, r, cut, dirty, p)
    {
      var i, o := Quot(p, s.Fs()), Rem(p, s.Fs());
      Position(size, s.Fs(), p);
      assert PlacedAt(view, w, size, s.Fs(), dot, s.locs[i], i, plains[i])
          && Right(v0, r, cut, dirty, size, s.Fs(), i, plains[i]);
      SealedByte(w, Dirty(i, plains[i], 0), size, s.Fs(), dot, o);
      InsideFrag(size, s.Fs(), i, o);
    }
  }

  lemma InsideFrag(size: nat, fs: nat, i: nat, o: nat)
    requires fs > 0 && i < Frags(size, fs) && o < fs && Times(i, fs) + o < size
    ensures o < FragLen(size, fs, i)
  {}

  /** Gap enough to copy the pinned history and place the stream in fragments of nfs bytes. */
  ghost function RecutNeed(pins: seq<nat>, ofs: nat, size: nat, nfs: nat): nat
    requires nfs > 0
  {
    HistoryNeed(pins, ofs, |pins|) + Frags(size, nfs) * (nfs + 4112)
  }

  /** Re-chunks the whole stream under one fresh dot. */
  method Recut(io: ContentIo, w: Writer, r: Rec, size: nat, min: nat, dirty: seq<Dirty>, pins: seq<nat>)
    returns (st: FoldStatus, s: Rec, ghost sync: VV.U64)
    requires io.Valid() && RecIn(io.view, r) && VV.Wf(r.vv) && r.exp < Band(size) && min <= r.Size() && min <= size
    requires CoversOld(dirty, size, r.Fs()) && |pins| == |r.locs|
    modifies io`dev, io`view, io`retired, io`ws, io`es, io.fa
    ensures io.Valid() && !st.BadRequest? && Grows(old(io.view), io.view)
        && Logged(old(io.ws), old(io.es), io.ws, io.es, true)
    ensures st.OutOfSpace? ==> old(io.Gap()) < RecutNeed(pins, r.Fs(), size, Pow2(Band(size)))
    ensures st.Done? ==>
      && RecIn(io.view, s) && s.Size() == size && s.exp == Band(size) && Dotted(r, s, w.alias, sync)
      && (forall p | 0 <= p < size :: ByteAt(io.view, s, p) == WantByte(old(io.view), r, min, dirty, p))
      && (forall i | 0 <= i < |s.dots| :: s.dots[i] == VV.Dot(sync, w.alias))
      && io.retired == old(io.retired) + Freed(r, pins, |r.locs|) && History(old(io.view), io.view, r, pins, |r.locs|)
  {
    hide ContentIo.Valid, Logged, Pow2, Frags, FragIn, History, Placed, Right, WantByte, LastLen, VV.Wf, Freed,
        CoversOld, Rec.Size, ByteAt, HistoryNeed;
    ghost var v0 := io.view;
    TimesIs(Frags(size, Pow2(Band(size))), Pow2(Band(size)) + 4112);
    var nexp := DeriveExp(size);
    var vv, c := VV.Bump(r.vv, w.alias);
    sync := c;
    var dot := VV.Dot(c, w.alias);
    s, st := r, OutOfSpace;
    var ok := ReleaseOld(io, r, pins);
    if !ok { return; }
    var locs;
    ghost var plains;
    ghost var v1, ws1, es1 := io.view, io.ws, io.es;
    ok, locs, plains := Resplit(io, w, r, min, dirty, size, nexp, dot, v0);
    LoggedTwice(old(io.ws), old(io.es), ws1, es1, io.ws, io.es, true);
    if !ok { return; }
    HistoryGrows(v0, v1, io.view, r, pins, |r.locs|);
    s := Rec(nexp, seq(|locs|, _ => dot), locs, LastLen(size, Pow2(nexp)), w.suite, [], vv);
    ResplitRec(io.view, v0, w, r, min, dirty, size, dot, s, plains);
    st := Done;
  }

  // ---------------------------------------------------------------- the commit of one unit

  /** A non-empty stream that grew over a band. */
  predicate Recuts(r: Rec, size: nat) { size > 0 && r.locs != [] && Band(size) > r.exp }

  /** The fragment size the batch is folded at: frozen once the stream has fragments. */
  function FoldExp(r: Rec, size: nat): nat { if r.locs != [] then r.exp else Band(size) }

  function Least(a: nat, b: nat, c: nat): nat { var m := if a < b then a else b; if m < c then m else c }

  lemma TrailRuns(io: ContentIo)
    requires io.Valid()
    ensures Runs(io.ws, io.es)
  {}

  lemma StillRestorable(io: ContentIo, ws0: seq<World>, es0: seq<Event>, first: bool)
    requires io.Valid() && Logged(ws0, es0, io.ws, io.es, first) && Runs(ws0, es0)
    ensures first && (forall n | 0 <= n < |ws0| :: Undoable(ws0[n])) ==> io.Restorable()
  {
    hide Undoable, Fair, Takes, Sane, AllSafe, F.Falloc.Valid, Sound;
    if first && forall n | 0 <= n < |ws0| :: Undoable(ws0[n]) {
      RunUndoableIff(ws0, es0);
      LoggedFair(ws0, es0, io.ws, io.es);
      io.ScopeUndoableIff();
    }
  }

  /** The fragments a commit seals: all of them on a re-cut, the staged ones otherwise. */
  ghost predicate SealedNow(r: Rec, size: nat, s: Rec, dirty: seq<Dirty>, f: nat) {
    if Recuts(r, size) then f < |s.locs| else IsStaged(dirty, f)
  }

  /** Buffer j is the last one staged for fragment f. */
  ghost predicate LastStaged(dirty: seq<Dirty>, j: int, f: nat) {
    0 <= j < |dirty| && dirty[j].frag == f && forall i | j < i < |dirty| :: dirty[i].frag != f
  }

  /** A position that the batch leaves alone: below every truncation of it, and inside the old stream. */
  predicate Survives(r: Rec, min: nat, p: int) { p < min && p < r.Size() }

  /** Every staged position reads what was staged for it, last buffer first. */
  ghost predicate ReadsStaged(v1: Cells, s: Rec, dirty: seq<Dirty>, size: nat, fs: nat)
    requires RecIn(v1, s) && fs > 0
  {
    forall p, j | 0 <= p < size && LastStaged(dirty, j, Quot(p, fs)) ::
        Rem(p, fs) < |dirty[j].plain| && ByteAt(v1, s, p) == dirty[j].plain[Rem(p, fs)]
  }

  /** Every other position reads the old byte if it survives the batch, and zero if not. */
  ghost predicate ReadsRest(v0: Cells, r: Rec, v1: Cells, s: Rec, dirty: seq<Dirty>, size: nat, min: nat, fs: nat)
    requires RecIn(v0, r) && RecIn(v1, s) && fs > 0
  {
    forall p | 0 <= p < size && !IsStaged(dirty, Quot(p, fs)) ::
        ByteAt(v1, s, p) == if Survives(r, min, p) then ByteAt(v0, r, p) else 0
  }

  /** Where a surviving position shares its unstaged fragment with one that does not survive, zeros are stored there. */
  ghost predicate CutClean(v0: Cells, r: Rec, dirty: seq<Dirty>, size: nat, min: nat)
    requires RecIn(v0, r)
  {
    forall p, q | 0 <= q < p < size && Survives(r, min, q) && !Survives(r, min, p)
      && Quot(q, r.Fs()) == Quot(p, r.Fs()) < |r.locs| && !IsStaged(dirty, Quot(p, r.Fs())) ::
        StoredByte(v0, r, Quot(p, r.Fs()), Rem(p, r.Fs())) == 0
  }

  /** The fold minimum separates the surviving positions of the new stream from the others. */
  lemma LeastSplits(r: Rec, size: nat, min: nat, p: nat)
    requires p < size
    ensures p < Least(min, r.Size(), size) <==> Survives(r, min, p)
  {}

  lemma {:induction false} WantIs(v: Cells, r: Rec, cut: nat, dirty: seq<Dirty>, p: nat)
    requires RecIn(v, r) && forall j | 0 <= j < |dirty| :: |dirty[j].plain| >= r.Fs()
    ensures forall j | LastStaged(dirty, j, Quot(p, r.Fs())) ::
        Rem(p, r.Fs()) < |dirty[j].plain| && WantByte(v, r, cut, dirty, p) == dirty[j].plain[Rem(p, r.Fs())]
    ensures !IsStaged(dirty, Quot(p, r.Fs())) ==> WantByte(v, r, cut, dirty, p) == BaseByte(v, r, cut, p)
    decreases |dirty|
  {
    hide RecIn, Quot, Rem, Pow2, BaseByte;
    if dirty != [] {
      var n, f := |dirty| - 1, Quot(p, r.Fs());
      WantIs(v, r, cut, dirty[..n], p);
      forall j | LastStaged(dirty, j, f)
        ensures Rem(p, r.Fs()) < |dirty[j].plain| && WantByte(v, r, cut, dirty, p) == dirty[j].plain[Rem(p, r.Fs())]
      {
        if j < n { assert LastStaged(dirty[..n], j, f); }
      }
      if !IsStaged(dirty, f) { Fewer(dirty, n, f); }
    }
  }

  lemma Fewer(dirty: seq<Dirty>, n: nat, f: nat)
    requires n <= |dirty| && !IsStaged(dirty, f)
    ensures !IsStaged(dirty[..n], f) && forall j | 0 <= j < |dirty| :: dirty[j].frag != f
  {
    forall j | 0 <= j < n ensures dirty[..n][j].frag != f { assert dirty[..n][j] == dirty[j]; }
  }

  /** After a re-cut the new stream reads exactly as the batch asks. */
  lemma RecutReads(v0: Cells, r: Rec, v1: Cells, s: Rec, dirty: seq<Dirty>, size: nat, min: nat)
    requires RecIn(v0, r) && RecIn(v1, s) && forall j | 0 <= j < |dirty| :: |dirty[j].plain| >= r.Fs()
    requires forall p | 0 <= p < size :: ByteAt(v1, s, p) == WantByte(v0, r, Least(min, r.Size(), size), dirty, p)
    ensures ReadsStaged(v1, s, dirty, size, r.Fs()) && ReadsRest(v0, r, v1, s, dirty, size, min, r.Fs())
  {
    hide RecIn, Quot, Rem, Pow2, WantByte, ByteAt, Least, Survives, IsStaged, Rec.Size;
    forall p: nat | p < size
      ensures forall j | LastStaged(dirty, j, Quot(p, r.Fs())) ::
          Rem(p, r.Fs()) < |dirty[j].plain| && ByteAt(v1, s, p) == dirty[j].plain[Rem(p, r.Fs())]
      ensures !IsStaged(dirty, Quot(p, r.Fs())) ==>
          ByteAt(v1, s, p) == if Survives(r, min, p) then ByteAt(v0, r, p) else 0
    {
      WantIs(v0, r, Least(min, r.Size(), size), dirty, p);
      LeastSplits(r, size, min, p);
    }
  }

  /** Fragments kept below the minimum are those that hold a position below it. */
  lemma KeptShares(r: Rec, s: Rec, low: nat, p: nat) returns (q: int)
    requires Shaped(r) && low <= r.Size() && low <= p && (r.locs != [] ==> r.exp == s.exp)
    ensures Quot(p, s.Fs()) < KeepFrags(low, s.Fs(), |r.locs|) ==> 0 <= q < low && Quot(q, s.Fs()) == Quot(p, s.Fs())
  {
    hide Pow2, Frags, Quot, Rem, Times, Rec.Size, LastLen;
    q := low - 1;
    var fs := s.Fs();
    if low > 0 {
      Geometry(low, fs);
      Unique(low - 1, fs, Frags(low, fs) - 1, LastLen(low, fs) - 1);
      QuotMono(low - 1, p, fs);
    }
  }

  lemma QuotMono(a: nat, b: nat, fs: nat)
    requires fs > 0 && a <= b
    ensures Quot(a, fs) <= Quot(b, fs)
  {
    hide Quot, Rem, Times;
    DivMod(a, fs);
    DivMod(b, fs);
    if Quot(a, fs) > Quot(b, fs) { TimesSucc(Quot(b, fs), fs); TimesLe(Quot(b, fs) + 1, Quot(a, fs), fs); }
  }

  lemma CutCleanIff(v0: Cells, r: Rec, s: Rec, dirty: seq<Dirty>, size: nat, min: nat)
    requires RecIn(v0, r) && (r.locs != [] ==> r.exp == s.exp)
    ensures var low := Least(min, r.Size(), size);
            CutClean(v0, r, dirty, size, min) <==>
                BoundaryClean(v0, r, dirty, size, low, KeepFrags(low, s.Fs(), |r.locs|))
  {
    hide Pow2, Frags, Quot, Rem, Times, Rec.Size, StoredByte, FragIn, KeepFrags, Survives, Least, IsStaged;
    var low, fs := Least(min, r.Size(), size), r.Fs();
    var keep := KeepFrags(low, s.Fs(), |r.locs|);
    LeastLow(min, r.Size(), size);
    forall p: nat | p < size ensures p < low <==> Survives(r, min, p) { LeastSplits(r, size, min, p); }
    KeepBound(r, s, low);
    if CutClean(v0, r, dirty, size, min) {
      forall p | low <= p < size && Quot(p, fs) < keep && !IsStaged(dirty, Quot(p, fs))
        ensures StoredByte(v0, r, Quot(p, fs), Rem(p, fs)) == 0
      {
        var q := KeptShares(r, s, low, p);
        assert Survives(r, min, q) && !Survives(r, min, p);
      }
    }
    if BoundaryClean(v0, r, dirty, size, low, keep) {
      forall p, q | 0 <= q < p < size && Survives(r, min, q) && !Survives(r, min, p)
          && Quot(q, fs) == Quot(p, fs) < |r.locs| && !IsStaged(dirty, Quot(p, fs))
        ensures StoredByte(v0, r, Quot(p, fs), Rem(p, fs)) == 0
      {
        KeptBelow(low, s.Fs(), |r.locs|, q);
      }
    }
  }

  lemma LeastLow(a: nat, b: nat, c: nat)
    ensures Least(a, b, c) <= a && Least(a, b, c) <= b && Least(a, b, c) <= c
  {}

  /** At the stream's own fragment size staged positions read as asked, and the others exactly when the cut is clean. */
  lemma FrozenReads(v0: Cells, r: Rec, v1: Cells, s: Rec, dirty: seq<Dirty>, size: nat, min: nat)
    requires RecIn(v0, r) && RecIn(v1, s) && |s.locs| == Frags(size, s.Fs()) && (r.locs != [] ==> r.exp == s.exp)
    requires Ordered(dirty, |s.locs|) && Covering(dirty, size, s.Fs())
    requires FoldExact(v0, r, v1, s, dirty, size, KeepFrags(Least(min, r.Size(), size), s.Fs(), |r.locs|))
    ensures ReadsStaged(v1, s, dirty, size, s.Fs())
    ensures ReadsRest(v0, r, v1, s, dirty, size, min, s.Fs()) <==> CutClean(v0, r, dirty, size, min)
  {
    hide RecIn, Pow2, Frags, FragLen, StoredByte, Covering, Quot, Rem, Times, ByteAt, FoldExact, KeepFrags,
        Rec.Size, Survives, Least, IsStaged, CutClean, BoundaryClean;
    assert 0 < s.Fs();
    var fs, low := s.Fs(), Least(min, r.Size(), size);
    LeastLow(min, r.Size(), size);
    FoldMeaning(v0, r, v1, s, dirty, size, low);
    CutCleanIff(v0, r, s, dirty, size, min);
    forall p: nat | p < size ensures p < low <==> Survives(r, min, p) { LeastSplits(r, size, min, p); }
    forall j, o | 0 <= j < |dirty| && 0 <= o < FragLen(size, fs, dirty[j].frag)
      ensures |dirty[j].plain| > o && ByteAt(v1, s, Times(dirty[j].frag, fs) + o) == dirty[j].plain[o]
    {
      FoldStagedAt(v0, r, v1, s, dirty, size, KeepFrags(low, fs, |r.locs|), j, o);
    }
    forall p, j | 0 <= p < size && LastStaged(dirty, j, Quot(p, fs))
      ensures Rem(p, fs) < |dirty[j].plain| && ByteAt(v1, s, p) == dirty[j].plain[Rem(p, fs)]
    {
      Position(size, fs, p);
      InsideFrag(size, fs, Quot(p, fs), Rem(p, fs));
      FoldStagedAt(v0, r, v1, s, dirty, size, KeepFrags(low, fs, |r.locs|), j, Rem(p, fs));
    }
  }

  /** Staged bytes for an empty stream, or at the same fragment size a list that does not ascend within the count. */
  predicate Refuses(r: Rec, size: nat, dirty: seq<Dirty>) {
    (size == 0 && dirty != []) || (!Recuts(r, size) && !Ordered(dirty, Frags(size, Pow2(FoldExp(r, size)))))
  }

  lemma CommitReads(v0: Cells, r: Rec, v1: Cells, s: Rec, dirty: seq<Dirty>, size: nat, min: nat)
    requires RecIn(v0, r) && RecIn(v1, s) && forall j | 0 <= j < |dirty| :: |dirty[j].plain| >= Pow2(FoldExp(r, size))
    requires Recuts(r, size) ==>
        forall p | 0 <= p < size :: ByteAt(v1, s, p) == WantByte(v0, r, Least(min, r.Size(), size), dirty, p)
    requires !Recuts(r, size) && size > 0 ==>
      && s.exp == FoldExp(r, size) && |s.locs| == Frags(size, s.Fs()) && Ordered(dirty, |s.locs|)
      && Covering(dirty, size, s.Fs())
      && FoldExact(v0, r, v1, s, dirty, size, KeepFrags(Least(min, r.Size(), size), s.Fs(), |r.locs|))
    ensures var fs := if r.locs != [] then r.Fs() else s.Fs();
      && ReadsStaged(v1, s, dirty, size, fs)
      && (ReadsRest(v0, r, v1, s, dirty, size, min, fs) <==> Recuts(r, size) || CutClean(v0, r, dirty, size, min))
  {
    hide RecIn, Pow2, Frags, FragLen, Ordered, Covering, FoldExact, KeepFrags, Rec.Size, Least, WantByte, ByteAt, Quot,
        Rem, IsStaged, LastStaged, Survives, StoredByte;
    if Recuts(r, size) { RecutReads(v0, r, v1, s, dirty, size, min); }
    else if size > 0 { FrozenReads(v0, r, v1, s, dirty, size, min); }
  }

  predicate Unsorted(dirty: seq<Dirty>, j: nat)
    requires j < |dirty|
  {
    j > 0 && dirty[j].frag <= dirty[j - 1].frag
  }

  /** Which requests are refused, in plain numbers. */
  lemma RefusesIff(r: Rec, size: nat, dirty: seq<Dirty>)
    requires r.locs != [] ==> 12 <= r.exp <= 22
    ensures var e := if size < 16384 then 12 else if size < 262144 then 14 else if size < 67108864 then 18 else 22;
      Refuses(r, size, dirty) <==>
        || (size == 0 && dirty != [])
        || ((size == 0 || r.locs == [] || r.exp >= e) && exists j | 0 <= j < |dirty| ::
              dirty[j].frag * Pow2(if r.locs != [] then r.exp else e) >= size || Unsorted(dirty, j))
  {
    hide Pow2, Frags, Quot, Rem;
    var fs := Pow2(FoldExp(r, size));
    forall f: nat ensures f < Frags(size, fs) <==> f * fs < size { FragsIff(size, fs, f); }
    assert FoldExp(r, size) == if r.locs != [] then r.exp
        else if size < 16384 then 12 else if size < 262144 then 14 else if size < 67108864 then 18 else 22;
  }

  lemma FragsIff(size: nat, fs: nat, f: nat)
    requires fs > 0
    ensures f < Frags(size, fs) <==> f * fs < size
  {
    hide Quot, Rem, Frags, Times;
    assert Times(f, fs) == f * fs by { TimesIs(f, fs); }
    Geometry(size, fs);
    if size > 0 {
      var n := Frags(size, fs);
      if f < n { TimesLe(f, n - 1, fs); } else { TimesLe(n, f, fs); TimesSucc(n - 1, fs); }
    }
  }

  lemma TimesIs(a: nat, b: nat)
    ensures Times(a, b) == a * b
  {}

  /** Gap enough for one commit of a unit. */
  ghost function UnitNeed(r: Rec, size: nat, dirty: seq<Dirty>, pins: seq<nat>): nat {
    if Recuts(r, size) then RecutNeed(pins, r.Fs(), size, Pow2(Band(size)))
    else FoldNeed(dirty, Pow2(FoldExp(r, size)))
  }

  /** Folds one batch of staged writes, truncates and extends into the successor of record r. */
  method CommitUnit(io: ContentIo, w: Writer, r: Rec, size: nat, min: nat, dirty: seq<Dirty>, pins: seq<nat>)
    returns (st: FoldStatus, s: Rec, ghost sync: VV.U64)
    requires io.Valid() && RecIn(io.view, r) && VV.Wf(r.vv) && |pins| == |r.locs|
    requires forall j | 0 <= j < |dirty| :: |dirty[j].plain| >= Pow2(FoldExp(r, size))
    modifies io`dev, io`view, io`saved, io`retired, io`ws, io`es, io.fa
    ensures io.Valid() && Logged(old(io.ws), old(io.es), io.ws, io.es, old(FirstTouch(io, r)))
    ensures old(FirstTouch(io, r) && io.Restorable()) ==> io.Restorable()
    ensures st.BadRequest? <==> Refuses(r, size, dirty)
    ensures st.OutOfSpace? ==> old(io.Gap()) < UnitNeed(r, size, dirty, pins)
    ensures st.Done? ==> RecIn(io.view, s) && s.Size() == size && Dotted(r, s, w.alias, sync)
    ensures st.Done? && size > 0 ==>
      var e := if size < 16384 then 12 else if size < 262144 then 14 else if size < 67108864 then 18 else 22;
      && s.exp == (if r.locs != [] && r.exp > e then r.exp else e)
      && (Recuts(r, size) <==> r.locs != [] && r.exp < e)
    ensures st.Done? ==>
      var fs := if r.locs != [] then r.Fs() else s.Fs();
      && ReadsStaged(io.view, s, dirty, size, fs)
      && (ReadsRest(old(io.view), r, io.view, s, dirty, size, min, fs) <==>
            Recuts(r, size) || CutClean(old(io.view), r, dirty, size, min))
    ensures st.Done? && Recuts(r, size) ==>
      && s.exp == Band(size)
      && forall p | 0 <= p < size ::
          ByteAt(io.view, s, p) == WantByte(old(io.view), r, Least(min, r.Size(), size), dirty, p)
    ensures st.Done? && !Recuts(r, size) && size > 0 ==>
      && s.exp == FoldExp(r, size) && |s.locs| == Frags(size, s.Fs()) && Ordered(dirty, |s.locs|)
          && Covering(dirty, size, s.Fs())
      && FoldExact(old(io.view), r, io.view, s, dirty, size, KeepFrags(Least(min, r.Size(), size), s.Fs(), |r.locs|))
    ensures st.Done? ==>
        forall f: nat | SealedNow(r, size, s, dirty, f) :: f < |s.dots| && s.dots[f] == VV.Dot(sync, w.alias)
  {
    hide ContentIo.Valid, Pow2, Frags, FragIn, WantByte, VV.Wf, ByteAt, FoldExact, FragLen, Rec.Size, Times, Logged,
        FirstTouch, Runs, Undoable, FoldNeed, RecutNeed;
    s, st, sync := r, BadRequest, 0;
    NothingLogged(io);
    LoggedLess(io.ws, io.es, io.ws, io.es, true, FirstTouch(io, r));
    ghost var first := FirstTouch(io, r);
    assert Runs(io.ws, io.es) by { TrailRuns(io); }
    if size == 0 && |dirty| > 0 { return; }
    var low := Least(min, r.Size(), size);
    if size > 0 && r.locs != [] && Band(size) > r.exp {
      st, s, sync := Recut(io, w, r, size, low, dirty, pins);
      LoggedLess(old(io.ws), old(io.es), io.ws, io.es, true, first);
    } else {
      var exp := if r.locs != [] then r.exp else Band(size);
      forall j | 0 <= j < |dirty| && dirty[j].frag < Frags(size, Pow2(exp))
        ensures |dirty[j].plain| >= FragLen(size, Pow2(exp), dirty[j].frag)
      {
        FragLenRange(size, Pow2(exp), dirty[j].frag);
      }
      st, s, sync := FoldFrozen(io, w, r, exp, size, low, dirty);
    }
    if st.Done? { CommitReads(old(io.view), r, io.view, s, dirty, size, min); }
    StillRestorable(io, old(io.ws), old(io.es), first);
  }
}
