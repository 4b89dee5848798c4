/**
 Where each field lies in a record (kernel/sfs_encode.c:153-240) and in the payload its
 signature covers (kernel/sfs_sign.c:150-206), and which byte strings decode at all
 (kernel/sfs_record.c:22-104).
 */
module CodecLayout {
  import opened Base
  import opened Codec

  /** The bytes f lie in b at offset `at`. */
  ghost predicate Lies(b: Wire, at: nat, f: Wire) { at + |f| <= |b| && b[at..at + |f|] == f }

  ghost function Weigh(b0: int, b1: int, b2: int, b3: int): int {
    b0 + 0x100 * b1 + 0x1_0000 * b2 + 0x100_0000 * b3
  }

  /** A two-byte number, least significant byte first. */
  ghost predicate Num2(b: Wire, at: nat, n: nat) { at + 2 <= |b| && n == Weigh(b[at], b[at + 1], 0, 0) }

  /** A four-byte number. */
  ghost predicate Num4(b: Wire, at: nat, n: nat) {
    at + 4 <= |b| && n == Weigh(b[at], b[at + 1], b[at + 2], b[at + 3])
  }

  /** An eight-byte number. */
  ghost predicate Num8(b: Wire, at: nat, n: nat) {
    && at + 8 <= |b|
    && n == Weigh(b[at], b[at + 1], b[at + 2], b[at + 3])
            + 0x1_0000_0000 * Weigh(b[at + 4], b[at + 5], b[at + 6], b[at + 7])
  }

  // ---------------------------------------------------------------- pieces

  lemma Here(f: Wire, t: Wire)
    ensures Lies(f + t, 0, f)
  {
    assert (f + t)[0..|f|] == f;
  }

  lemma Later(a: Wire, t: Wire, at: nat, f: Wire)
    requires Lies(t, at, f)
    ensures Lies(a + t, |a| + at, f)
  {
    assert (a + t)[|a| + at..|a| + at + |f|] == t[at..at + |f|];
  }

  /** What lies at an offset in two pieces has each at its own. */
  lemma Cut(b: Wire, at: nat, a: Wire, t: Wire)
    requires Lies(b, at, a + t)
    ensures Lies(b, at, a) && Lies(b, at + |a|, t)
  {
    Here(a, t);
    assert (a + t)[|a|..] == t;
    Inside(b, at, a + t, 0, a);
    Inside(b, at, a + t, |a|, t);
  }

  lemma Inside(b: Wire, at: nat, f: Wire, o: nat, g: Wire)
    requires Lies(b, at, f) && Lies(f, o, g)
    ensures Lies(b, at + o, g)
  {
    forall i | 0 <= i < |g| ensures b[at + o..at + o + |g|][i] == g[i] {
      assert b[at..at + |f|][o + i] == f[o + i] == f[o..o + |g|][i];
    }
  }

  /** The value of the bytes from i on, four at a time. */
  lemma FourMore(x: Wire, i: nat)
    requires i + 4 <= |x|
    ensures NumFrom(x, i) == Weigh(x[i], x[i + 1], x[i + 2], x[i + 3]) + 0x1_0000_0000 * NumFrom(x, i + 4)
  {
    assert NumFrom(x, i + 3) == x[i + 3] + 256 * NumFrom(x, i + 4);
    assert NumFrom(x, i + 2) == x[i + 2] + 256 * NumFrom(x, i + 3);
    assert NumFrom(x, i + 1) == x[i + 1] + 256 * NumFrom(x, i + 2);
    assert NumFrom(x, i) == x[i] + 256 * NumFrom(x, i + 1);
  }

  lemma Same(b: Wire, at: nat, x: Wire)
    requires Lies(b, at, x)
    ensures forall i | 0 <= i < |x| :: b[at + i] == x[i]
  {
    forall i | 0 <= i < |x| ensures b[at + i] == x[i] { assert b[at + i] == b[at..at + |x|][i]; }
  }

  lemma Two(b: Wire, at: nat, n: U16)
    requires Lies(b, at, Le(n, 2))
    ensures Num2(b, at, n)
  {
    hide Le, Pow256;
    Widths();
    LeBack(n, 2);
    Same(b, at, Le(n, 2));
    var x := Le(n, 2);
    assert NumFrom(x, 1) == x[1] + 256 * NumFrom(x, 2) && NumFrom(x, 2) == 0;
    assert b[at + 0] == x[0] && b[at + 1] == x[1];
  }

  lemma Four(b: Wire, at: nat, n: U32)
    requires Lies(b, at, Le(n, 4))
    ensures Num4(b, at, n)
  {
    hide Le, Pow256;
    Widths();
    LeBack(n, 4);
    Same(b, at, Le(n, 4));
    FourMore(Le(n, 4), 0);
    assert b[at + 0] == Le(n, 4)[0];
  }

  lemma Eight(b: Wire, at: nat, n: U64)
    requires Lies(b, at, Le(n, 8))
    ensures Num8(b, at, n)
  {
    hide Le, Pow256;
    Widths();
    LeBack(n, 8);
    Same(b, at, Le(n, 8));
    FourMore(Le(n, 8), 0);
    FourMore(Le(n, 8), 4);
    assert b[at + 0] == Le(n, 8)[0];
  }

  // ---------------------------------------------------------------- tables

  lemma {:induction false} DotsLength(d: seq<U64>)
    ensures |EncDots(d)| == 8 * |d|
  {
    hide Le;
    if d != [] { DotsLength(d[1..]); }
  }

  lemma {:induction false} DotAt(d: seq<U64>, i: nat)
    requires i < |d|
    ensures Lies(EncDots(d), 8 * i, Le(d[i], 8))
    decreases i
  {
    hide Le, Lies;
    if i == 0 {
      Here(Le(d[0], 8), EncDots(d[1..]));
    } else {
      DotAt(d[1..], i - 1);
      Later(Le(d[0], 8), EncDots(d[1..]), 8 * (i - 1), Le(d[i], 8));
    }
  }

  lemma {:induction false} LocAt(l: seq<Loc>, i: nat)
    requires i < |l|
    ensures Lies(EncLocs(l), 12 * i, Le(l[i].addr, 8)) && Lies(EncLocs(l), 12 * i + 8, Le(l[i].len, 4))
    decreases i
  {
    hide Le, Lies;
    var a, n, t := Le(l[0].addr, 8), Le(l[0].len, 4), EncLocs(l[1..]);
    Assoc(a, n, t);
    Whole(EncLocs(l));
    Cut(EncLocs(l), 0, a, n + t);
    Cut(EncLocs(l), 8, n, t);
    if i > 0 {
      LocAt(l[1..], i - 1);
      Inside(EncLocs(l), 12, t, 12 * (i - 1), Le(l[i].addr, 8));
      Inside(EncLocs(l), 12, t, 12 * (i - 1) + 8, Le(l[i].len, 4));
    }
  }

  /** Where pin i starts in the pin table. */
  ghost function PinStart(p: seq<Pin>, i: nat): nat
    requires i <= |p|
  {
    if i == 0 then 0 else PinStart(p, i - 1) + 20 + |p[i - 1].bits|
  }

  lemma {:induction false} PinShift(p: seq<Pin>, i: nat)
    requires 0 < i <= |p|
    ensures PinStart(p, i) == 20 + |p[0].bits| + PinStart(p[1..], i - 1)
  {
    if i > 1 { PinShift(p, i - 1); }
  }

  lemma {:induction false} PinAt(p: seq<Pin>, i: nat)
    requires i < |p| && forall j | 0 <= j < |p| :: |p[j].uuid| == 16
    ensures var o := PinStart(p, i);
            && Lies(EncPins(p), o, p[i].uuid) && Lies(EncPins(p), o + 16, Le(|p[i].bits|, 4))
            && Lies(EncPins(p), o + 20, p[i].bits)
    decreases i
  {
    hide Le, Lies;
    var u, n, b, t := p[0].uuid, Le(|p[0].bits|, 4), p[0].bits, EncPins(p[1..]);
    var e := EncPins(p);
    Assoc(u + n, b, t);
    Assoc(u, n, b + t);
    Whole(e);
    Cut(e, 0, u, n + (b + t));
    Cut(e, 16, n, b + t);
    Cut(e, 20, b, t);
    if i > 0 {
      PinAt(p[1..], i - 1);
      PinShift(p, i);
      var at, o := 20 + |b|, PinStart(p[1..], i - 1);
      Inside(e, at, t, o, p[i].uuid);
      Inside(e, at, t, o + 16, Le(|p[i].bits|, 4));
      Inside(e, at, t, o + 20, p[i].bits);
    }
  }

  // ---------------------------------------------------------------- a stream

  /**
   A stream in b at offset `at`: the dots and the locations under their counts, the
   version vector, the size exponent, the length of the last fragment, the pins.
   */
  ghost predicate StreamAt(b: Wire, at: nat, s: Stream) {
    var n, v := |s.dots|, |s.vv|;
    && |s.locs| == n
    && Num4(b, at, n) && (forall i: nat | i < n :: Num8(b, at + 4 + 8 * i, s.dots[i])) && Num4(b, at + 4 + 8 * n, n)
    && (forall i: nat | i < n :: Num8(b, at + 8 + 8 * n + 12 * i, s.locs[i].addr))
    && (forall i: nat | i < n :: Num4(b, at + 16 + 8 * n + 12 * i, s.locs[i].len))
    && Num4(b, at + 8 + 20 * n, v) && Lies(b, at + 12 + 20 * n, s.vv)
    && Lies(b, at + 12 + 20 * n + v, [s.exp]) && Num4(b, at + 13 + 20 * n + v, s.last)
    && Num4(b, at + 17 + 20 * n + v, |s.pins|) && PinsAt(b, at + 21 + 20 * n + v, s.pins)
  }

  ghost predicate PinsAt(b: Wire, at: nat, p: seq<Pin>) {
    forall i: nat | i < |p| ::
      var o := at + PinStart(p, i);
      Lies(b, o, p[i].uuid) && Num4(b, o + 16, |p[i].bits|) && Lies(b, o + 20, p[i].bits)
  }

  ghost function StreamSize(s: Stream): nat { 21 + 20 * |s.dots| + |s.vv| + PinStart(s.pins, |s.pins|) }

  lemma DotsIn(b: Wire, at: nat, d: seq<U64>)
    requires Lies(b, at, EncDots(d))
    ensures forall i: nat | i < |d| :: Num8(b, at + 8 * i, d[i])
  {
    hide Le, Lies, Num8, EncDots;
    forall i: nat | i < |d| ensures Num8(b, at + 8 * i, d[i]) {
      DotAt(d, i);
      Inside(b, at, EncDots(d), 8 * i, Le(d[i], 8));
      Eight(b, at + 8 * i, d[i]);
    }
  }

  lemma LocsIn(b: Wire, at: nat, l: seq<Loc>)
    requires Lies(b, at, EncLocs(l))
    ensures forall i: nat | i < |l| :: Num8(b, at + 12 * i, l[i].addr)
    ensures forall i: nat | i < |l| :: Num4(b, at + 8 + 12 * i, l[i].len)
  {
    hide Le, Lies, Num8, Num4, EncLocs;
    forall i: nat | i < |l| ensures Num8(b, at + 12 * i, l[i].addr) && Num4(b, at + 8 + 12 * i, l[i].len) {
      LocAt(l, i);
      Inside(b, at, EncLocs(l), 12 * i, Le(l[i].addr, 8));
      Inside(b, at, EncLocs(l), 12 * i + 8, Le(l[i].len, 4));
      Eight(b, at + 12 * i, l[i].addr);
      Four(b, at + 8 + 12 * i, l[i].len);
    }
  }

  lemma PinsIn(b: Wire, at: nat, p: seq<Pin>)
    requires Lies(b, at, EncPins(p)) && forall i | 0 <= i < |p| :: |p[i].uuid| == 16 && |p[i].bits| < 0x1_0000_0000
    ensures PinsAt(b, at, p)
  {
    hide Le, Lies, Num4, EncPins, PinStart;
    forall i: nat | i < |p|
      ensures var o := at + PinStart(p, i);
              Lies(b, o, p[i].uuid) && Num4(b, o + 16, |p[i].bits|) && Lies(b, o + 20, p[i].bits)
    {
      PinAt(p, i);
      var o := PinStart(p, i);
      Inside(b, at, EncPins(p), o, p[i].uuid);
      Inside(b, at, EncPins(p), o + 16, Le(|p[i].bits|, 4));
      Inside(b, at, EncPins(p), o + 20, p[i].bits);
      Four(b, at + o + 16, |p[i].bits|);
    }
  }

  /** From the version vector on. */
  function VvTail(s: Stream): Wire {
    Le(|s.vv|, 4) + (s.vv + ([s.exp] + (Le(s.last, 4) + (Le(|s.pins|, 4) + EncPins(s.pins)))))
  }

  lemma VvTailIn(b: Wire, at: nat, s: Stream)
    requires WfStream(s) && Lies(b, at, VvTail(s))
    ensures var v := |s.vv|;
            && Num4(b, at, v) && Lies(b, at + 4, s.vv) && Lies(b, at + 4 + v, [s.exp]) && Num4(b, at + 5 + v, s.last)
            && Num4(b, at + 9 + v, |s.pins|) && Lies(b, at + 13 + v, EncPins(s.pins))
  {
    hide Le, Lies, Num4, EncPins;
    var v, l, m, p := |s.vv|, Le(s.last, 4), Le(|s.pins|, 4), EncPins(s.pins);
    Cut(b, at, Le(v, 4), s.vv + ([s.exp] + (l + (m + p))));
    Cut(b, at + 4, s.vv, [s.exp] + (l + (m + p)));
    Cut(b, at + 4 + v, [s.exp], l + (m + p));
    Cut(b, at + 5 + v, l, m + p);
    Cut(b, at + 9 + v, m, p);
    Four(b, at, v);
    Four(b, at + 5 + v, s.last);
    Four(b, at + 9 + v, |s.pins|);
  }

  /** An encoded stream has every field at its offset. */
  lemma StreamLayout(b: Wire, at: nat, s: Stream)
    requires WfStream(s) && Lies(b, at, EncStream(s))
    ensures StreamAt(b, at, s)
  {
    hide Le, Lies, Num4, Num8, EncPins, EncDots, EncLocs, PinsAt;
    var n, v := |s.dots|, |s.vv|;
    var h, d, l, t := Le(n, 4), EncDots(s.dots), EncLocs(s.locs), VvTail(s);
    DotsLength(s.dots);
    LocsLength(s.locs);
    Cut(b, at, h, d + (h + (l + t)));
    Cut(b, at + 4, d, h + (l + t));
    Cut(b, at + 4 + 8 * n, h, l + t);
    Cut(b, at + 8 + 8 * n, l, t);
    Four(b, at, n);
    DotsIn(b, at + 4, s.dots);
    Four(b, at + 4 + 8 * n, n);
    LocsIn(b, at + 8 + 8 * n, s.locs);
    VvTailIn(b, at + 8 + 20 * n, s);
    PinsIn(b, at + 21 + 20 * n + v, s.pins);
  }

  ghost predicate Named(p: seq<Pin>) { forall i | 0 <= i < |p| :: |p[i].uuid| == 16 }

  lemma NamedTail(p: seq<Pin>)
    requires p != [] && Named(p)
    ensures |p[0].uuid| == 16 && Named(p[1..])
  {}

  lemma {:induction false} PinsLength(p: seq<Pin>)
    requires Named(p)
    ensures |EncPins(p)| == PinStart(p, |p|)
    decreases |p|
  {
    hide Le, Named;
    if p != [] {
      hide EncPins, PinStart;
      NamedTail(p);
      PinsLength(p[1..]);
      PinShift(p, |p|);
      PinLength(p);
    }
  }

  lemma PinLength(p: seq<Pin>)
    requires p != [] && |p[0].uuid| == 16
    ensures |EncPins(p)| == 20 + |p[0].bits| + |EncPins(p[1..])|
  {
    hide Le;
  }

  lemma StreamLength(s: Stream)
    requires WfStream(s)
    ensures |EncStream(s)| == StreamSize(s)
  {
    hide Le, EncDots, EncLocs, EncPins, PinStart;
    DotsLength(s.dots);
    LocsLength(s.locs);
    PinsLength(s.pins);
  }

  // ---------------------------------------------------------------- the signed payload

  /** The signed fields of a stream in b at offset `at`. */
  ghost predicate SignedAt(b: Wire, at: nat, s: Signed) {
    var n, v := |s.dots|, |s.vv|;
    && Num4(b, at, n) && (forall i: nat | i < n :: Num8(b, at + 4 + 8 * i, s.dots[i]))
    && Num4(b, at + 4 + 8 * n, v) && Lies(b, at + 8 + 8 * n, s.vv)
    && Lies(b, at + 8 + 8 * n + v, [s.exp]) && Num4(b, at + 9 + 8 * n + v, s.last)
  }

  ghost function SignedSize(s: Option<Signed>): nat { if s.Some? then 13 + 8 * |s.value.dots| + |s.value.vv| else 0 }

  lemma SignedIn(b: Wire, at: nat, s: Signed)
    requires WfSigned(s) && Lies(b, at, EncSigned(s))
    ensures SignedAt(b, at, s) && |EncSigned(s)| == SignedSize(Some(s))
  {
    hide Le, Lies, Num4, Num8, EncDots;
    var n, v, d, k, l := |s.dots|, |s.vv|, EncDots(s.dots), Le(|s.vv|, 4), Le(s.last, 4);
    DotsLength(s.dots);
    Cut(b, at, Le(n, 4), d + (k + (s.vv + ([s.exp] + l))));
    Cut(b, at + 4, d, k + (s.vv + ([s.exp] + l)));
    Cut(b, at + 4 + 8 * n, k, s.vv + ([s.exp] + l));
    Cut(b, at + 8 + 8 * n, s.vv, [s.exp] + l);
    Cut(b, at + 8 + 8 * n + v, [s.exp], l);
    Four(b, at, n);
    DotsIn(b, at + 4, s.dots);
    Four(b, at + 4 + 8 * n, v);
    Four(b, at + 9 + 8 * n + v, s.last);
  }

  lemma OptIn(b: Wire, at: nat, s: Option<Signed>)
    requires (s.Some? ==> WfSigned(s.value)) && Lies(b, at, OptSigned(s))
    ensures |OptSigned(s)| == SignedSize(s) && (s.Some? ==> SignedAt(b, at, s.value))
  {
    hide EncSigned, SignedAt, WfSigned;
    if s.Some? { SignedIn(b, at, s.value); }
  }

  /**
   The payload: "sfsu-sig", the uuid, a flag for each stream present, the signed fields
   of each, and "sfsu-db" with the database head where there is one.  Nothing else.
   */
  lemma PayloadLayout(uuid: Wire, c: Option<Signed>, m: Option<Signed>, db: Option<Wire>)
    requires Signable(uuid, c, m, db)
    ensures var b, o := Payload(uuid, c, m, db), 25 + SignedSize(c) + SignedSize(m);
            && Lies(b, 0, [0x73, 0x66, 0x73, 0x75, 0x2D, 0x73, 0x69, 0x67]) && Lies(b, 8, uuid)
            && Lies(b, 24, [(if c.Some? then 1 else 0) + (if m.Some? then 2 else 0)])
            && (c.Some? ==> SignedAt(b, 25, c.value)) && (m.Some? ==> SignedAt(b, 25 + SignedSize(c), m.value))
            && |b| == (if db.Some? then o + 40 else o)
            && (db.Some? ==> Lies(b, o, [0x73, 0x66, 0x73, 0x75, 0x2D, 0x64, 0x62]) && Lies(b, o + 7, db.value))
  {
    hide Lies, SignedAt, OptSigned, SignedSize, WfSigned;
    var b, o := Payload(uuid, c, m, db), 25 + SignedSize(c);
    var f, x, y, z := [SignFlags(c, m)], OptSigned(c), OptSigned(m), if db.Some? then DB_TAG + db.value else [];
    Whole(b);
    Cut(b, 0, SIG_TAG, uuid + (f + (x + (y + z))));
    Cut(b, 8, uuid, f + (x + (y + z)));
    Cut(b, 24, f, x + (y + z));
    Cut(b, 25, x, y + z);
    OptIn(b, 25, c);
    Cut(b, o, y, z);
    OptIn(b, o, m);
    if db.Some? { Cut(b, o + SignedSize(m), DB_TAG, db.value); }
  }

  lemma Whole(b: Wire)
    ensures Lies(b, 0, b)
  {
    assert b[0..|b|] == b;
  }

  // ---------------------------------------------------------------- the record

  /** A presence byte, then the field if it is there. */
  ghost predicate FlaggedAt(b: Wire, at: nat, f: Option<Wire>) {
    if f.Some? then Lies(b, at, [1]) && Lies(b, at + 1, f.value) else Lies(b, at, [0])
  }

  ghost predicate ParentAt(b: Wire, p: Option<U64>) {
    if p.Some? then Lies(b, 24, [1]) && Num8(b, 25, p.value) else Lies(b, 24, [0])
  }

  ghost function OptSize(s: Option<Stream>): nat { if s.Some? then StreamSize(s.value) else 0 }

  /** The trailing fields at offset `at`: no strains, the suite, the suite table, the signature, the database head. */
  ghost predicate TailAt(b: Wire, at: nat, r: Record)
    requires r.suite.Some?
  {
    var o := at + 11 + |r.fragSuites|;
    && Num4(b, at, 0) && Lies(b, at + 4, [1]) && Num2(b, at + 5, r.suite.value)
    && Num4(b, at + 7, |r.fragSuites| / 2) && Lies(b, at + 11, r.fragSuites)
    && FlaggedAt(b, o, r.sig) && FlaggedAt(b, o + (if r.sig.Some? then 65 else 1), r.db)
  }

  lemma FlaggedIn(b: Wire, at: nat, f: Option<Wire>)
    requires Lies(b, at, Flagged(f))
    ensures FlaggedAt(b, at, f)
  {
    hide Lies;
    if f.Some? { Cut(b, at, [1], f.value); }
  }

  lemma ParentIn(b: Wire, p: Option<U64>)
    requires Lies(b, 24, ParentWire(p))
    ensures ParentAt(b, p) && |ParentWire(p)| == if p.Some? then 9 else 1
  {
    hide Lies, Le, Num8;
    if p.Some? {
      Cut(b, 24, [1], Le(p.value, 8));
      Eight(b, 25, p.value);
    }
  }

  lemma StreamIn(b: Wire, at: nat, s: Option<Stream>)
    requires (s.Some? ==> WfStream(s.value)) && Lies(b, at, EncOpt(s))
    ensures |EncOpt(s)| == OptSize(s) && (s.Some? ==> StreamAt(b, at, s.value))
  {
    hide Lies, StreamAt, EncStream, WfStream, StreamSize;
    if s.Some? {
      StreamLayout(b, at, s.value);
      StreamLength(s.value);
    }
  }

  lemma TailIn(b: Wire, at: nat, r: Record)
    requires Encodable(r) && Lies(b, at, EncTail(r))
    ensures TailAt(b, at, r)
  {
    hide Lies, Le, Flagged, Num4, Num2, FlaggedAt, WfStream;
    var s, k, f, g := Le(r.suite.value, 2), |r.fragSuites| / 2, Flagged(r.sig), Flagged(r.db);
    var o := at + 11 + |r.fragSuites|;
    Cut(b, at, Le(0, 4), [1] + (s + (Le(k, 4) + (r.fragSuites + (f + g)))));
    Cut(b, at + 4, [1], s + (Le(k, 4) + (r.fragSuites + (f + g))));
    Cut(b, at + 5, s, Le(k, 4) + (r.fragSuites + (f + g)));
    Cut(b, at + 7, Le(k, 4), r.fragSuites + (f + g));
    Cut(b, at + 11, r.fragSuites, f + g);
    Cut(b, o, f, g);
    assert |f| == if r.sig.Some? then 65 else 1 by { FlaggedLength(r.sig); }
    Four(b, at, 0);
    Two(b, at + 5, r.suite.value);
    Four(b, at + 7, k);
    FlaggedIn(b, o, r.sig);
    FlaggedIn(b, o + |f|, r.db);
  }

  lemma FlaggedLength(f: Option<Wire>)
    ensures |Flagged(f)| == if f.Some? then 1 + |f.value| else 1
  {}

  ghost function FlagsOff(r: Record): nat { if r.parent.Some? then 33 else 25 }

  /** Up to the trailing fields: magic, uuid, parent, which streams follow, the streams. */
  ghost predicate HeadAt(b: Wire, r: Record) {
    var f := FlagsOff(r);
    && Lies(b, 0, [0x73, 0x66, 0x73, 0x75, 0x00, 0x72, 0x31, 0x00]) && Lies(b, 8, r.uuid) && |r.uuid| == 16
    && ParentAt(b, r.parent)
    && Lies(b, f, [(if r.content.Some? then 1 else 0) + (if r.meta.Some? then 2 else 0)])
    && (r.content.Some? ==> StreamAt(b, f + 1, r.content.value))
    && (r.meta.Some? ==> StreamAt(b, f + 1 + OptSize(r.content), r.meta.value))
  }

  /** The last four bytes are the checksum of the others. */
  ghost predicate Checked(b: Wire, crc: Wire -> U32) { |b| >= 4 && Num4(b, |b| - 4, crc(b[..|b| - 4])) }

  lemma HeadIn(b: Wire, r: Record, t: Wire)
    requires Lies(b, 0, MAGIC) && |r.uuid| == 16
    requires (r.content.Some? ==> WfStream(r.content.value)) && (r.meta.Some? ==> WfStream(r.meta.value))
    requires Lies(b, 8, r.uuid + (ParentWire(r.parent) + ([Flags(r)] + (EncOpt(r.content) + (EncOpt(r.meta) + t)))))
    ensures HeadAt(b, r) && Lies(b, FlagsOff(r) + 1 + OptSize(r.content) + OptSize(r.meta), t)
  {
    hide Lies, ParentAt, StreamAt, OptSize, WfStream, EncOpt, ParentWire;
    var f, x, y := FlagsOff(r), EncOpt(r.content), EncOpt(r.meta);
    Cut(b, 8, r.uuid, ParentWire(r.parent) + ([Flags(r)] + (x + (y + t))));
    Cut(b, 24, ParentWire(r.parent), [Flags(r)] + (x + (y + t)));
    ParentIn(b, r.parent);
    Cut(b, f, [Flags(r)], x + (y + t));
    Cut(b, f + 1, x, y + t);
    StreamIn(b, f + 1, r.content);
    Cut(b, f + 1 + |x|, y, t);
    StreamIn(b, f + 1 + |x|, r.meta);
  }

  /**
   A record: "sfsu", zero, "r1", zero; the uuid; the parent; which streams follow; the
   streams; the trailing fields; the checksum of everything before it.
   */
  lemma RecordLayout(r: Record, crc: Wire -> U32)
    requires Encodable(r)
    ensures HeadAt(Encode(r, crc), r) && Checked(Encode(r, crc), crc)
    ensures TailAt(Encode(r, crc), FlagsOff(r) + 1 + OptSize(r.content) + OptSize(r.meta), r)
  {
    hide Lies, Num4, HeadAt, TailAt, OptSize, WfStream, EncBody, FlagsOff, Le;
    var w := MAGIC + EncBody(r);
    Sealed(w, crc(w));
    BodyIn(Encode(r, crc), r);
  }

  lemma Sealed(w: Wire, n: U32)
    ensures var b := w + Le(n, 4); Lies(b, 0, w) && b[..|b| - 4] == w && Num4(b, |b| - 4, n)
  {
    hide Lies, Le, Num4;
    var b := w + Le(n, 4);
    Whole(b);
    Cut(b, 0, w, Le(n, 4));
    Four(b, |w|, n);
  }

  lemma BodyIn(b: Wire, r: Record)
    requires Encodable(r) && Lies(b, 0, MAGIC + EncBody(r))
    ensures HeadAt(b, r) && TailAt(b, FlagsOff(r) + 1 + OptSize(r.content) + OptSize(r.meta), r)
  {
    hide Lies, HeadAt, TailAt, OptSize, WfStream, EncTail, EncOpt, ParentWire, FlagsOff;
    Cut(b, 0, MAGIC, EncBody(r));
    HeadIn(b, r, EncTail(r));
    TailIn(b, FlagsOff(r) + 1 + OptSize(r.content) + OptSize(r.meta), r);
  }

  // ---------------------------------------------------------------- what decodes

  lemma Split(b: Wire, k: nat)
    requires k <= |b|
    ensures b == b[..k] + b[k..]
  {}

  lemma {:induction false} DotsExact(b: Wire, n: nat)
    requires DecDots(b, n).Got?
    ensures var g := DecDots(b, n); |g.value| == n && b == EncDots(g.value) + g.rest
    decreases n
  {
    hide Le, UnLe, Pow256;
    if n > 0 {
      DotsExact(b[8..], n - 1);
      UnLeBack(b[..8]);
      Split(b, 8);
      var g, t := DecDots(b, n), DecDots(b[8..], n - 1);
      assert g.value[1..] == t.value;
      assert EncDots(g.value) + g.rest == Le(g.value[0], 8) + (EncDots(t.value) + t.rest);
    }
  }

  lemma {:induction false} LocsExact(b: Wire, n: nat)
    requires DecLocs(b, n).Got?
    ensures var g := DecLocs(b, n); |g.value| == n && b == EncLocs(g.value) + g.rest
    decreases n
  {
    hide Le, UnLe, Pow256;
    if n > 0 {
      LocsExact(b[12..], n - 1);
      UnLeBack(b[..8]);
      UnLeBack(b[8..12]);
      var g, t := DecLocs(b, n), DecLocs(b[12..], n - 1);
      assert b == b[..8] + (b[8..12] + b[12..]);
      assert g.value[1..] == t.value;
      assert EncLocs(g.value) + g.rest == Le(g.value[0].addr, 8)
          + (Le(g.value[0].len, 4) + (EncLocs(t.value) + t.rest));
    }
  }

  lemma PinOf(b: Wire, m: nat)
    requires 20 + m <= |b|
    ensures b == b[..16] + (b[16..20] + (b[20..20 + m] + b[20 + m..]))
  {}

  lemma {:induction false} PinsExact(b: Wire, n: nat)
    requires DecPins(b, n).Got?
    ensures var g := DecPins(b, n);
            && |g.value| == n && b == EncPins(g.value) + g.rest
            && forall i | 0 <= i < n :: |g.value[i].uuid| == 16 && |g.value[i].bits| < 0x1_0000_0000
    decreases n
  {
    hide Le, UnLe, Pow256;
    if n > 0 {
      var m := UnLe(b[16..20]);
      var c := b[20 + m..];
      assert b[20..][m..] == c && b[20..][..m] == b[20..20 + m];
      PinsExact(c, n - 1);
      Widths();
      UnLeBack(b[16..20]);
      var g, t := DecPins(b, n), DecPins(c, n - 1);
      assert g.value == [Pin(b[..16], b[20..20 + m])] + t.value;
      assert g.value[1..] == t.value;
      PinOf(b, m);
      PinsFront(g.value, g.rest);
    }
  }

  /** A byte string decodes to a stream if and only if it begins with that stream's encoding. */
  lemma StreamExact(b: Wire, s: Stream, rest: Wire)
    ensures DecStream(b) == Got(s, rest) <==> WfStream(s) && b == EncStream(s) + rest
  {
    hide DecStream, EncStream, WfStream;
    if WfStream(s) && b == EncStream(s) + rest { StreamBack(s, rest); }
    if DecStream(b) == Got(s, rest) { StreamFrom(b); }
  }

  lemma StreamFrom(b: Wire)
    requires DecStream(b).Got?
    ensures var g := DecStream(b); WfStream(g.value) && b == EncStream(g.value) + g.rest
  {
    hide Le, UnLe, Pow256, DecDots, DecLocs, EncDots, EncLocs, DecStreamTail, VvTail;
    Widths();
    var n := UnLe(b[..4]);
    UnLeBack(b[..4]);
    var dots, b2 := DecDots(b[4..], n).value, DecDots(b[4..], n).rest;
    DotsExact(b[4..], n);
    UnLeBack(b2[..4]);
    var locs, b4 := DecLocs(b2[4..], n).value, DecLocs(b2[4..], n).rest;
    LocsExact(b2[4..], n);
    assert DecStream(b) == DecStreamTail(dots, locs, b4);
    TailExact(dots, locs, b4);
    assert b == Le(n, 4) + (EncDots(dots) + b2) by { Split(b, 4); }
    assert b2 == Le(n, 4) + (EncLocs(locs) + b4) by { Split(b2, 4); }
    var s := DecStream(b).value;
    Joined(s, DecStream(b).rest);
  }

  lemma Joined(s: Stream, rest: Wire)
    requires |s.dots| == |s.locs|
    ensures EncStream(s) + rest
            == Le(|s.dots|, 4) + (EncDots(s.dots) + (Le(|s.dots|, 4) + (EncLocs(s.locs) + (VvTail(s) + rest))))
  {
    hide Le, EncDots, EncLocs, EncPins;
    var h, d, l, t := Le(|s.dots|, 4), EncDots(s.dots), EncLocs(s.locs), VvTail(s);
    assert EncStream(s) == h + (d + (h + (l + t)));
  }

  lemma TailExact(dots: seq<U64>, locs: seq<Loc>, b: Wire)
    requires DecStreamTail(dots, locs, b).Got?
    ensures var g := DecStreamTail(dots, locs, b);
            && g.value.dots == dots && g.value.locs == locs && b == VvTail(g.value) + g.rest
            && |g.value.vv| < 0x1_0000_0000 && |g.value.pins| < 0x1_0000_0000
            && forall i | 0 <= i < |g.value.pins| ::
                 |g.value.pins[i].uuid| == 16 && |g.value.pins[i].bits| < 0x1_0000_0000
  {
    hide Le, UnLe, Pow256, DecPins, EncPins;
    Widths();
    var v := UnLe(b[..4]);
    UnLeBack(b[..4]);
    var b6 := b[4..][v..];
    UnLeBack(b6[1..5]);
    UnLeBack(b6[5..9]);
    PinsExact(b6[9..], UnLe(b6[5..9]));
    var g := DecStreamTail(dots, locs, b);
    var p := EncPins(g.value.pins);
    NineOf(b6);
    Split(b[4..], v);
    Split(b, 4);
    Gather(b[..4], b[4..][..v], b6[0], b6[1..5], b6[5..9], p, g.rest);
  }

  lemma NineOf(b: Wire)
    requires |b| >= 9
    ensures b == [b[0]] + (b[1..5] + (b[5..9] + b[9..]))
  {}

  lemma Gather(n: Wire, v: Wire, e: Byte, l: Wire, m: Wire, p: Wire, rest: Wire)
    ensures (n + (v + ([e] + (l + (m + p))))) + rest == n + (v + ([e] + (l + (m + (p + rest)))))
  {
    Assoc(m, p, rest);
    Assoc(l, m + p, rest);
    Assoc([e], l + (m + p), rest);
    Assoc(v, [e] + (l + (m + p)), rest);
    Assoc(n, v + ([e] + (l + (m + p))), rest);
  }

  lemma Assoc(a: Wire, b: Wire, c: Wire)
    ensures (a + b) + c == a + (b + c)
  {}

  lemma ParentExact(b: Wire)
    requires DecParent(b).Got?
    ensures var g := DecParent(b); b == ParentWire(g.value) + g.rest
  {
    hide Le, UnLe, Pow256;
    if b[0] == 1 {
      UnLeBack(b[1..9]);
      assert b == ([1] + b[1..9]) + b[9..];
    } else {
      assert b == [0] + b[1..];
    }
  }

  lemma OptExact(present: bool, b: Wire)
    requires DecOpt(present, b).Got?
    ensures var g := DecOpt(present, b);
            g.value.Some? == present && b == EncOpt(g.value) + g.rest && (present ==> WfStream(g.value.value))
  {
    hide DecStream, EncStream, WfStream;
    if present {
      StreamExact(b, DecStream(b).value, DecStream(b).rest);
    } else {
      assert [] + b == b;
    }
  }

  /** The fixed part of an accepted body is what the encoder writes for the decoded fields. */
  lemma BodyExact(b: Wire) returns (t: Wire)
    requires DecBody(b).Some?
    ensures var r := DecBody(b).value;
            && b == r.uuid + (ParentWire(r.parent) + ([Flags(r)] + (EncOpt(r.content) + (EncOpt(r.meta) + t))))
            && |r.uuid| == 16 && (r.content.Some? ==> WfStream(r.content.value) && 12 <= r.content.value.exp <= 25)
            && (r.meta.Some? ==> WfStream(r.meta.value))
  {
    hide WfStream, EncOpt, DecOpt, ParentWire, DecParent, DecStrains, DecSuite, DecSuites, DecFlagged;
    Split(b, 16);
    var b2 := DecParent(b[16..]).rest;
    ParentExact(b[16..]);
    Split(b2, 1);
    OptExact(b2[0] % 2 == 1, b2[1..]);
    var b3 := DecOpt(b2[0] % 2 == 1, b2[1..]).rest;
    OptExact(b2[0] >= 2, b3);
    t := DecOpt(b2[0] >= 2, b3).rest;
  }

  /**
   Whatever is accepted, by whomever it was written, has its fields at the encoder's offsets and its checksum
   right.
   */
  lemma DecodedLayout(b: Wire, crc: Wire -> U32)
    requires Decode(b, crc).Some?
    ensures var r := Decode(b, crc).value;
            && HeadAt(b, r) && (r.content.Some? ==> 12 <= r.content.value.exp <= 25)
            && |b| >= 30 && Checked(b, crc)
  {
    hide DecBody, Lies, Le, UnLe, Num4, HeadAt, OptSize, WfStream, EncOpt, ParentWire, Pow256;
    var e := |b| - 4;
    var t := BodyExact(b[8..e]);
    Pieces(b, e, crc(b[..e]));
    HeadIn(b, Decode(b, crc).value, t);
  }

  lemma Pieces(b: Wire, e: nat, n: U32)
    requires 8 <= e && e + 4 == |b| && UnLe(b[e..]) == n
    ensures Lies(b, 0, b[..8]) && Lies(b, 8, b[8..e]) && Num4(b, e, n)
  {
    hide Le, UnLe, Pow256, Num4;
    UnLeBack(b[e..]);
    assert b[e..e + 4] == b[e..];
    Four(b, e, n);
  }
}
