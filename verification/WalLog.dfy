/**
 The write-ahead log on the device and its replay (kernel/sfs_wal.c:29-56 and
 165-288): records are read until the first that is missing, torn or damaged.
 */
module WalLog {
  import opened Base
  import opened Codec
  import W = Wal

  /** One logged write; the ciphertext may be longer than the logical data. */
  datatype Entry = Entry(num: U64, uuid: Wire, off: U64, len: U32, ct: Wire)

  ghost predicate WfEntry(e: Entry) { |e.uuid| == 16 && |e.ct| < 0x1_0000_0000 }

  /** "sfsw", zero, "r1", zero. */
  const LOG_MAGIC: Wire := [0x73, 0x66, 0x73, 0x77, 0x00, 0x72, 0x31, 0x00]

  function Head(e: Entry): (h: Wire) {
    LOG_MAGIC + (Le(e.num, 8) + (e.uuid + (Le(e.off, 8) + (Le(e.len, 4) + Le(|e.ct|, 4)))))
  }

  /** The checksum covers header and ciphertext and sits between them. */
  function EncEntry(e: Entry, crc: Wire -> U32): Wire { Head(e) + (Le(crc(Head(e) + e.ct), 4) + e.ct) }

  function EncLog(es: seq<Entry>, crc: Wire -> U32): Wire {
    if es == [] then [] else EncEntry(es[0], crc) + EncLog(es[1..], crc)
  }

  /** The record at the front, if it is whole and undamaged. */
  function FrontEntry(b: Wire, crc: Wire -> U32): Option<Entry> {
    if |b| < 52 || b[..8] != LOG_MAGIC then None
    else
      var n := UnLe(b[44..48]);
      if 52 + n > |b| then None
      else if UnLe(b[48..52]) != crc(b[..48] + b[52..52 + n]) then None
      else
        Widths(); UnLeBack(b[8..16]); UnLeBack(b[32..40]); UnLeBack(b[40..44]);
        Some(Entry(UnLe(b[8..16]), b[16..32], UnLe(b[32..40]), UnLe(b[40..44]), b[52..52 + n]))
  }

  function ScanLog(b: Wire, crc: Wire -> U32): seq<Entry>
    decreases |b|
  {
    match FrontEntry(b, crc)
    case None => []
    case Some(e) => [e] + ScanLog(b[52 + UnLe(b[44..48])..], crc)
  }

  lemma HeadFields(e: Entry, t: Wire)
    requires WfEntry(e)
    ensures |Head(e)| == 48
    ensures var b := Head(e) + t;
      && b[..8] == LOG_MAGIC && b[8..16] == Le(e.num, 8) && b[16..32] == e.uuid && b[32..40] == Le(e.off, 8)
      && b[40..44] == Le(e.len, 4) && b[44..48] == Le(|e.ct|, 4) && b[..48] == Head(e) && b[48..] == t
  {
    hide Le;
  }

  /** A written record is read back, whatever follows it. */
  lemma FrontBack(e: Entry, crc: Wire -> U32, rest: Wire)
    requires WfEntry(e)
    ensures FrontEntry(EncEntry(e, crc) + rest, crc) == Some(e)
    ensures |EncEntry(e, crc)| == 52 + |e.ct| && UnLe((EncEntry(e, crc) + rest)[44..48]) == |e.ct|
  {
    hide Le, UnLe, Pow256, Head;
    Widths();
    var c := crc(Head(e) + e.ct);
    var b := EncEntry(e, crc) + rest;
    HeadFields(e, Le(c, 4) + e.ct + rest);
    assert b == Head(e) + (Le(c, 4) + e.ct + rest);
    LeBack(e.num, 8);
    LeBack(e.off, 8);
    LeBack(e.len, 4);
    LeBack(|e.ct|, 4);
    LeBack(c, 4);
    BodyFields(b, Le(c, 4), e.ct, rest);
  }

  lemma BodyFields(b: Wire, c: Wire, ct: Wire, rest: Wire)
    requires |b| >= 48 && b[48..] == c + ct + rest && |c| == 4
    ensures |b| == 52 + |ct| + |rest| && b[48..52] == c && b[52..52 + |ct|] == ct && b[52 + |ct|..] == rest
  {
    assert b[48..52] == b[48..][..4] && b[52..52 + |ct|] == b[48..][4..4 + |ct|]
        && b[52 + |ct|..] == b[48..][4 + |ct|..];
  }

  lemma ScanStep(e: Entry, crc: Wire -> U32, rest: Wire)
    requires WfEntry(e)
    ensures ScanLog(EncEntry(e, crc) + rest, crc) == [e] + ScanLog(rest, crc)
  {
    hide FrontEntry, EncEntry, UnLe;
    FrontBack(e, crc, rest);
    assert (EncEntry(e, crc) + rest)[52 + |e.ct|..] == rest;
  }

  /** A log is read back entry by entry up to whatever ends it. */
  lemma {:induction false} LogBack(es: seq<Entry>, crc: Wire -> U32, tail: Wire)
    requires forall i | 0 <= i < |es| :: WfEntry(es[i])
    ensures ScanLog(EncLog(es, crc) + tail, crc) == es + ScanLog(tail, crc)
  {
    hide ScanLog, EncEntry;
    if es == [] {
      assert EncLog(es, crc) + tail == tail && es + ScanLog(tail, crc) == ScanLog(tail, crc);
    } else {
      var rest := EncLog(es[1..], crc) + tail;
      assert EncLog(es, crc) + tail == EncEntry(es[0], crc) + rest;
      ScanStep(es[0], crc, rest);
      LogBack(es[1..], crc, tail);
      assert [es[0]] + (es[1..] + ScanLog(tail, crc)) == es + ScanLog(tail, crc);
    }
  }

  /** What follows a whole log is ignored exactly when no undamaged record stands at its front. */
  lemma EndsIff(es: seq<Entry>, crc: Wire -> U32, tail: Wire)
    requires forall i | 0 <= i < |es| :: WfEntry(es[i])
    ensures ScanLog(EncLog(es, crc) + tail, crc) == es <==> FrontEntry(tail, crc).None?
  {
    hide FrontEntry, EncEntry, UnLe;
    LogBack(es, crc, tail);
    assert es + [] == es;
    assert |es + ScanLog(tail, crc)| == |es| + |ScanLog(tail, crc)|;
  }

  /** Behind header and checksum the declared length fits, and the checksum is right. */
  predicate Intact(x: Wire, crc: Wire -> U32)
    requires |x| >= 52
  {
    var n := UnLe(x[44..48]);
    52 + n <= |x| && UnLe(x[48..52]) == crc(x[..48] + x[52..52 + n])
  }

  /**
   A crash in the middle of an append, the region going on with whatever it held.  Torn in
   the body, the record is dropped exactly when the body runs out or its checksum differs;
   torn in header or checksum, exactly when what follows does not complete the magic or
   the mixture of both is not intact.
   */
  lemma TornAppend(es: seq<Entry>, e: Entry, n: nat, rest: Wire, crc: Wire -> U32)
    requires (forall i | 0 <= i < |es| :: WfEntry(es[i])) && WfEntry(e) && n < |EncEntry(e, crc)|
    ensures |EncEntry(e, crc)| == 52 + |e.ct|
    ensures var x := EncEntry(e, crc)[..n] + rest;
            ScanLog(EncLog(es, crc) + x, crc) == es <==>
            if n >= 52 then
              var body := e.ct[..n - 52] + rest;
              |body| < |e.ct| || crc(Head(e) + body[..|e.ct|]) != crc(Head(e) + e.ct)
            else |x| < 52 || (n < 8 && x[n..8] != LOG_MAGIC[n..]) || !Intact(x, crc)
  {
    hide UnLe, EncEntry, FrontEntry, Head, Intact;
    FrontBack(e, crc, []);
    EndsIff(es, crc, EncEntry(e, crc)[..n] + rest);
    if n >= 52 { TornFront(e, n, rest, crc); } else { TornHead(e, n, rest, crc); }
  }

  lemma TornHead(e: Entry, n: nat, rest: Wire, crc: Wire -> U32)
    requires WfEntry(e) && |EncEntry(e, crc)| == 52 + |e.ct| && n < 52
    ensures var x := EncEntry(e, crc)[..n] + rest;
            FrontEntry(x, crc).None? <==> |x| < 52 || (n < 8 && x[n..8] != LOG_MAGIC[n..]) || !Intact(x, crc)
  {
    hide UnLe, Le, Pow256, Head;
    var x := EncEntry(e, crc)[..n] + rest;
    HeadFields(e, []);
    if |x| >= 52 {
      assert Head(e) + [] == Head(e);
      forall i | 0 <= i < 8 && i < n ensures x[i] == LOG_MAGIC[i] { assert Head(e)[..8][i] == LOG_MAGIC[i]; }
      if n < 8 {
        assert x[..8] == x[..n] + x[n..8] && LOG_MAGIC == LOG_MAGIC[..n] + LOG_MAGIC[n..];
        assert x[..n] == LOG_MAGIC[..n];
      } else {
        assert x[..8] == LOG_MAGIC;
      }
    }
  }

  lemma TornFront(e: Entry, n: nat, rest: Wire, crc: Wire -> U32)
    requires WfEntry(e) && |EncEntry(e, crc)| == 52 + |e.ct| && 52 <= n < 52 + |e.ct|
    ensures var body := e.ct[..n - 52] + rest;
            FrontEntry(EncEntry(e, crc)[..n] + rest, crc).None? <==>
                |body| < |e.ct| || crc(Head(e) + body[..|e.ct|]) != crc(Head(e) + e.ct)
  {
    hide UnLe, Le, Pow256, Head;
    Widths();
    var c, body := Le(crc(Head(e) + e.ct), 4), e.ct[..n - 52] + rest;
    HeadFields(e, c + body);
    LeBack(|e.ct|, 4);
    LeBack(crc(Head(e) + e.ct), 4);
    var x := EncEntry(e, crc)[..n] + rest;
    assert x == Head(e) + (c + body);
    assert x[48..][..4] == c && x[48..][4..] == body;
    assert x[48..52] == c && x[52..] == body;
    if |body| >= |e.ct| { assert x[52..52 + |e.ct|] == body[..|e.ct|]; }
  }

  /** Zeroed space ends the log. */
  lemma ZeroEnds(n: nat, crc: Wire -> U32)
    ensures ScanLog(seq(n, _ => 0), crc) == []
  {
    var z: Wire := seq(n, _ => 0);
    if n >= 52 { assert z[..8][0] == 0 && LOG_MAGIC[0] != 0; }
  }

  // ---------------------------------------------------------------- replay

  datatype UnitWrites = UnitWrites(uuid: Wire, w: seq<W.Pend>)

  /** Decrypts under the log's own context; None is an authentication failure. */
  type Opener = (Wire, U64, Wire) -> Option<Wire>

  datatype Outcome = Replayed | Undecryptable | Unclean

  /** The data a record contributes, cut back to its logical length. */
  function Data(e: Entry, open: Opener): Option<Wire> {
    match open(e.uuid, e.num, e.ct)
    case None => None
    case Some(pt) => if e.len > |pt| then None else Some(pt[..e.len])
  }

  /** The latest logged data for each unit and offset, in log order. */
  ghost function Played(es: seq<Entry>, applied: nat, open: Opener): map<(Wire, nat), Wire>
    requires forall i | 0 <= i < |es| :: es[i].num > applied ==> Data(es[i], open).Some?
  {
    if es == [] then map[]
    else
      var n := |es| - 1;
      var m := Played(es[..n], applied, open);
      if es[n].num > applied then m[(es[n].uuid, es[n].off) := Data(es[n], open).value] else m
  }

  /** Record i is not yet applied, and the last such record for its unit and offset. */
  ghost predicate Latest(es: seq<Entry>, applied: nat, i: int) {
    && 0 <= i < |es| && es[i].num > applied
    && forall j | i < j < |es| && es[j].num > applied :: es[j].uuid != es[i].uuid || es[j].off != es[i].off
  }

  /** A record contributes the first len bytes of its plaintext, at its unit and offset, unless a later one does. */
  lemma {:induction false} PlayedIs(es: seq<Entry>, applied: nat, open: Opener, i: int)
    requires Opens(es, applied, open) && Latest(es, applied, i)
    ensures var m, pt := Played(es, applied, open), open(es[i].uuid, es[i].num, es[i].ct);
      && pt.Some? && es[i].len <= |pt.value| && (es[i].uuid, es[i].off) in m
      && m[(es[i].uuid, es[i].off)] == pt.value[..es[i].len]
  {
    var n := |es| - 1;
    if i < n {
      assert Latest(es[..n], applied, i);
      PlayedIs(es[..n], applied, open, i);
    } else {
      assert Data(es[n], open).Some?;
    }
  }

  /** Nothing else is bound. */
  lemma {:induction false} PlayedOnly(es: seq<Entry>, applied: nat, open: Opener, u: Wire, off: nat) returns (i: int)
    requires Opens(es, applied, open) && (u, off) in Played(es, applied, open)
    ensures Latest(es, applied, i) && es[i].uuid == u && es[i].off == off
  {
    hide Data;
    var n := |es| - 1;
    if es[n].num > applied && (u, off) == (es[n].uuid, es[n].off) { i := n; }
    else { i := PlayedOnly(es[..n], applied, open, u, off); }
  }

  ghost function MaxNum(es: seq<Entry>, applied: nat): nat {
    if es == [] then applied
    else var m := MaxNum(es[..|es| - 1], applied); if es[|es| - 1].num > m then es[|es| - 1].num else m
  }

  /** The highest number applied or logged, and no more. */
  lemma {:induction false} MaxNumIs(es: seq<Entry>, applied: nat)
    ensures MaxNum(es, applied) >= applied && forall i | 0 <= i < |es| :: es[i].num <= MaxNum(es, applied)
    ensures MaxNum(es, applied) == applied || exists i :: 0 <= i < |es| && es[i].num == MaxNum(es, applied)
    decreases |es|
  {
    if es != [] { MaxNumIs(es[..|es| - 1], applied); }
  }

  ghost predicate Distinct(us: seq<UnitWrites>) { forall i, j | 0 <= i < j < |us| :: us[i].uuid != us[j].uuid }

  /** The overlay holds exactly the bindings of m. */
  ghost predicate Mirrors(us: seq<UnitWrites>, m: map<(Wire, nat), Wire>) {
    && Distinct(us) && (forall i | 0 <= i < |us| :: W.Sorted(us[i].w))
    && forall u: Wire, off: nat, d: Wire :: BindsIn(us, u, off, d) <==> (u, off) in m && m[(u, off)] == d
  }

  ghost predicate BindsIn(us: seq<UnitWrites>, u: Wire, off: nat, d: Wire) {
    exists i :: 0 <= i < |us| && us[i].uuid == u && W.Binds(us[i].w, off, d)
  }

  class Overlay {
    var units: seq<UnitWrites>
    var maxSeq: nat

    constructor (applied: nat)
      ensures units == [] && maxSeq == applied
    {
      units, maxSeq := [], applied;
    }

    /** The unit's slot, appended if it is new. */
    method UnitIndex(uuid: Wire) returns (k: nat)
      requires Distinct(units)
      modifies this`units
      ensures k < |units| && units[k].uuid == uuid && Distinct(units)
      ensures units == old(units) || (units == old(units) + [UnitWrites(uuid, [])] && k == |old(units)|)
    {
      for i := 0 to |units|
        invariant forall j | 0 <= j < i :: units[j].uuid != uuid
        invariant units == old(units)
      {
        if units[i].uuid == uuid { return i; }
      }
      k := |units|;
      units := units + [UnitWrites(uuid, [])];
    }

    method Insert(uuid: Wire, off: nat, data: Wire, ghost m: map<(Wire, nat), Wire>)
      requires Mirrors(units, m)
      modifies this`units
      ensures Mirrors(units, m[(uuid, off) := data])
    {
      hide W.Sorted, W.Binds;
      var k := UnitIndex(uuid);
      ghost var us := units;
      GrownMirrors(old(units), units, uuid, m);
      var v := W.InsertWrite(units[k].w, off, data);
      units := units[k := UnitWrites(uuid, v)];
      InsertMirrors(us, units, k, uuid, off, data, m, v);
    }
  }

  lemma GrownMirrors(us: seq<UnitWrites>, us': seq<UnitWrites>, uuid: Wire, m: map<(Wire, nat), Wire>)
    requires Mirrors(us, m) && Distinct(us') && (us' == us || us' == us + [UnitWrites(uuid, [])])
    ensures Mirrors(us', m)
  {
    forall u: Wire, off: nat, d: Wire ensures BindsIn(us', u, off, d) <==> BindsIn(us, u, off, d)
    {
      if BindsIn(us, u, off, d) { var i :| 0 <= i < |us| && us[i].uuid == u && W.Binds(us[i].w, off, d);
          assert us'[i] == us[i]; }
      if BindsIn(us', u, off, d) { var i :| 0 <= i < |us'| && us'[i].uuid == u && W.Binds(us'[i].w, off, d);
          assert i < |us| && us[i] == us'[i]; }
    }
  }

  lemma InsertMirrors(us: seq<UnitWrites>, us': seq<UnitWrites>, k: nat, uuid: Wire, off: nat, data: Wire,
                      m: map<(Wire, nat), Wire>, v: seq<W.Pend>)
    requires Mirrors(us, m) && k < |us| && us[k].uuid == uuid && us' == us[k := UnitWrites(uuid, v)]
    requires W.Sorted(v) && W.Rebinds(us[k].w, v, off, data)
    ensures Mirrors(us', m[(uuid, off) := data])
  {
    hide W.Sorted, W.Binds;
    var m' := m[(uuid, off) := data];
    forall u: Wire, o: nat, d: Wire ensures BindsIn(us', u, o, d) <==> (u, o) in m' && m'[(u, o)] == d
    {
      assert BindsIn(us, u, o, d) <==> (u, o) in m && m[(u, o)] == d;
      if u == uuid {
        OnlyAt(us, k, u, o, d);
        OnlyAt(us', k, u, o, d);
      } else {
        SameElsewhere(us, us', k, u, o, d);
      }
    }
  }

  lemma OnlyAt(us: seq<UnitWrites>, k: nat, u: Wire, o: nat, d: Wire)
    requires Distinct(us) && k < |us| && us[k].uuid == u
    ensures BindsIn(us, u, o, d) <==> W.Binds(us[k].w, o, d)
  {
    hide W.Binds;
    if BindsIn(us, u, o, d) { var i :| 0 <= i < |us| && us[i].uuid == u && W.Binds(us[i].w, o, d); assert i == k; }
  }

  lemma SameElsewhere(us: seq<UnitWrites>, us': seq<UnitWrites>, k: nat, u: Wire, o: nat, d: Wire)
    requires k < |us| == |us'| && us[k].uuid == us'[k].uuid != u && forall i | 0 <= i < |us| && i != k ::
        us'[i] == us[i]
    ensures BindsIn(us, u, o, d) <==> BindsIn(us', u, o, d)
  {
    hide W.Binds;
    if BindsIn(us, u, o, d) { var i :| 0 <= i < |us| && us[i].uuid == u && W.Binds(us[i].w, o, d);
        assert us'[i] == us[i]; }
    if BindsIn(us', u, o, d) { var i :| 0 <= i < |us'| && us'[i].uuid == u && W.Binds(us'[i].w, o, d);
        assert us[i] == us'[i]; }
  }

  ghost predicate Opens(es: seq<Entry>, applied: nat, open: Opener) {
    forall i | 0 <= i < |es| :: es[i].num > applied ==> Data(es[i], open).Some?
  }

  lemma PlayedMore(es: seq<Entry>, e: Entry, applied: nat, open: Opener)
    requires Opens(es, applied, open) && (e.num > applied ==> Data(e, open).Some?)
    ensures Opens(es + [e], applied, open)
    ensures Played(es + [e], applied, open) ==
            if e.num > applied then
                Played(es, applied, open)[(e.uuid, e.off) := Data(e, open).value] else Played(es, applied, open)
    ensures MaxNum(es + [e], applied) == if e.num > MaxNum(es, applied) then e.num else MaxNum(es, applied)
  {
    hide Data;
    assert (es + [e])[..|es|] == es && (es + [e])[|es|] == e;
  }

  lemma {:induction false} MaxAtLeast(es: seq<Entry>, applied: nat)
    ensures MaxNum(es, applied) >= applied
  {
    if es != [] { MaxAtLeast(es[..|es| - 1], applied); }
  }

  /** Reads the log into the overlay; anything undecryptable above the checksum fails the whole replay. */
  method Replay(buf: Wire, applied: nat, crc: Wire -> U32, open: Opener) returns (out: Outcome, ov: Overlay)
    ensures fresh(ov)
    ensures out.Replayed? <==> Opens(ScanLog(buf, crc), applied, open)
    ensures out.Replayed? ==>
        Mirrors(ov.units, Played(ScanLog(buf, crc), applied, open)) && ov.maxSeq == MaxNum(ScanLog(buf, crc), applied)
    ensures !out.Replayed? ==> ov.units == []
    ensures out.Replayed? ==>
      var es := ScanLog(buf, crc);
      && (forall i | Latest(es, applied, i) ::
            && var pt := open(es[i].uuid, es[i].num, es[i].ct);
            && pt.Some? && es[i].len <= |pt.value| && BindsIn(ov.units, es[i].uuid, es[i].off, pt.value[..es[i].len]))
      && (forall u, off, d | BindsIn(ov.units, u, off, d) ::
            exists i :: Latest(es, applied, i) && es[i].uuid == u && es[i].off == off)
  {
    hide FrontEntry, Mirrors, Data, UnLe, Played;
    ov := new Overlay(applied);
    ghost var es: seq<Entry> := [];
    var off := 0;
    assert buf[0..] == buf && [] + ScanLog(buf, crc) == ScanLog(buf, crc);
    EmptyMirrors(applied, open);
    while off <= |buf|
      invariant 0 <= off <= |buf| && fresh(ov)
      invariant ScanLog(buf, crc) == es + ScanLog(buf[off..], crc)
      invariant Opens(es, applied, open) && Mirrors(ov.units, Played(es, applied, open))
          && ov.maxSeq == MaxNum(es, applied)
      decreases |buf| - off
    {
      var b := buf[off..];
      var f := FrontEntry(b, crc);
      if f.None? { break; }
      var e := f.value;
      FrontRoom(b, crc);
      var n := UnLe(b[44..48]);
      assert b[52 + n..] == buf[off + 52 + n..];
      assert ScanLog(buf, crc) == (es + [e]) + ScanLog(buf[off + 52 + n..], crc);
      if e.num > applied {
        var pt := open(e.uuid, e.num, e.ct);
        var d := Data(e, open);
        if d.None? {
          NotOpen(es, e, ScanLog(buf[off + 52 + n..], crc), applied, open);
          ov.units := [];
          return if pt.None? then Undecryptable else Unclean, ov;
        }
        ov.Insert(e.uuid, e.off, d.value, Played(es, applied, open));
        MaxAtLeast(es, applied);
        if e.num > ov.maxSeq { ov.maxSeq := e.num; }
      }
      MaxAtLeast(es, applied);
      PlayedMore(es, e, applied, open);
      es := es + [e];
      off := off + 52 + n;
    }
    assert es + [] == es;
    out := Replayed;
    Bound(ov.units, es, applied, open);
  }

  lemma Bound(us: seq<UnitWrites>, es: seq<Entry>, applied: nat, open: Opener)
    requires Opens(es, applied, open) && Mirrors(us, Played(es, applied, open))
    ensures forall i | Latest(es, applied, i) ::
            && var pt := open(es[i].uuid, es[i].num, es[i].ct);
            && pt.Some? && es[i].len <= |pt.value| && BindsIn(us, es[i].uuid, es[i].off, pt.value[..es[i].len])
    ensures forall u, off, d | BindsIn(us, u, off, d) ::
            exists i :: Latest(es, applied, i) && es[i].uuid == u && es[i].off == off
  {
    hide BindsIn, Played, Distinct, Data;
    forall i | Latest(es, applied, i)
      ensures var pt := open(es[i].uuid, es[i].num, es[i].ct);
              pt.Some? && es[i].len <= |pt.value| && BindsIn(us, es[i].uuid, es[i].off, pt.value[..es[i].len])
    {
      PlayedIs(es, applied, open, i);
    }
    forall u, off, d | BindsIn(us, u, off, d)
      ensures exists i :: Latest(es, applied, i) && es[i].uuid == u && es[i].off == off
    {
      var i := PlayedOnly(es, applied, open, u, off);
    }
  }

  lemma FrontRoom(b: Wire, crc: Wire -> U32)
    requires FrontEntry(b, crc).Some?
    ensures |b| >= 52 && 52 + UnLe(b[44..48]) <= |b|
  {}

  lemma EmptyMirrors(applied: nat, open: Opener)
    ensures Mirrors([], Played([], applied, open))
  {}

  lemma NotOpen(es: seq<Entry>, e: Entry, more: seq<Entry>, applied: nat, open: Opener)
    requires e.num > applied && Data(e, open).None?
    ensures !Opens((es + [e]) + more, applied, open)
  {
    hide Data;
    assert ((es + [e]) + more)[|es|] == e;
  }
}
