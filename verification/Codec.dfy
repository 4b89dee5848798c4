/**
 The unit record on the wire (kernel/sfs_encode.c:153-240, kernel/sfs_record.c:22-246)
 and the payload its signature covers (kernel/sfs_sign.c:135-307).
 */
module Codec {
  import opened Base

  type Wire = seq<Byte>

  type U16 = x: int | 0 <= x < 0x1_0000
  type U32 = x: int | 0 <= x < 0x1_0000_0000
  type U64 = x: int | 0 <= x < 0x1_0000_0000_0000_0000

  // ---------------------------------------------------------------- little-endian integers

  /** n in k bytes, least significant first. */
  function Le(n: nat, k: nat): (r: Wire)
    ensures |r| == k
  {
    if k == 0 then [] else [n % 256] + Le(n / 256, k - 1)
  }

  function UnLe(b: Wire): nat { NumFrom(b, 0) }

  lemma UnLeStep(b: Wire)
    ensures UnLe(b) == if b == [] then 0 else b[0] + 256 * UnLe(b[1..])
  {
    if b != [] { NumSuffix(b, 1); }
  }

  function Pow256(k: nat): nat { if k == 0 then 1 else 256 * Pow256(k - 1) }

  lemma {:induction false} LeBack(n: nat, k: nat)
    requires n < Pow256(k)
    ensures UnLe(Le(n, k)) == n
  {
    if k > 0 {
      LeBack(n / 256, k - 1);
      UnLeStep(Le(n, k));
      assert Le(n, k)[1..] == Le(n / 256, k - 1);
    }
  }

  lemma {:induction false} UnLeBack(b: Wire)
    ensures UnLe(b) < Pow256(|b|) && Le(UnLe(b), |b|) == b
  {
    if b != [] {
      UnLeBack(b[1..]);
      UnLeStep(b);
      assert UnLe(b) % 256 == b[0] && UnLe(b) / 256 == UnLe(b[1..]);
      assert b == [b[0]] + b[1..];
    }
  }

  lemma Widths()
    ensures Pow256(2) == 0x1_0000 && Pow256(4) == 0x1_0000_0000 && Pow256(8) == 0x1_0000_0000_0000_0000
  {
    assert Pow256(4) == 0x1_0000_0000;
    assert Pow256(6) == 0x1_0000_0000_0000;
  }

  // ---------------------------------------------------------------- reading from the front

  /** What a decoding step returns: the value and the unread rest, or a rejection. */
  datatype Read<T> = Bad | Got(value: T, rest: Wire)

  function Take(b: Wire, k: nat): Read<Wire> { if k > |b| then Bad else Got(b[..k], b[k..]) }

  function TakeLe(b: Wire, k: nat): Read<nat> { if k > |b| then Bad else Got(UnLe(b[..k]), b[k..]) }

  lemma TakeFront(a: Wire, rest: Wire)
    ensures Take(a + rest, |a|) == Got(a, rest)
  {
    assert (a + rest)[..|a|] == a && (a + rest)[|a|..] == rest;
  }

  lemma TakeLeFront(n: nat, k: nat, rest: Wire)
    requires n < Pow256(k)
    ensures TakeLe(Le(n, k) + rest, k) == Got(n, rest)
  {
    LeBack(n, k);
    assert (Le(n, k) + rest)[..k] == Le(n, k) && (Le(n, k) + rest)[k..] == rest;
  }

  // ---------------------------------------------------------------- stream metadata

  datatype Loc = Loc(addr: U64, len: U32)

  datatype Pin = Pin(uuid: Wire, bits: Wire)

  datatype Stream = Stream(dots: seq<U64>, locs: seq<Loc>, vv: Wire, exp: Byte, last: U32, pins: seq<Pin>)

  ghost predicate WfStream(s: Stream) {
    && |s.dots| == |s.locs| < 0x1_0000_0000 && |s.vv| < 0x1_0000_0000 && |s.pins| < 0x1_0000_0000
    && forall i | 0 <= i < |s.pins| :: |s.pins[i].uuid| == 16 && |s.pins[i].bits| < 0x1_0000_0000
  }

  function EncDots(d: seq<U64>): Wire { if d == [] then [] else Le(d[0], 8) + EncDots(d[1..]) }

  function EncLocs(l: seq<Loc>): Wire { if l == [] then [] else Le(l[0].addr, 8) + Le(l[0].len, 4) + EncLocs(l[1..]) }

  function EncPins(p: seq<Pin>): Wire {
    if p == [] then [] else p[0].uuid + Le(|p[0].bits|, 4) + p[0].bits + EncPins(p[1..])
  }

  function EncStream(s: Stream): Wire {
    Le(|s.dots|, 4) + (EncDots(s.dots) + (Le(|s.locs|, 4) + (EncLocs(s.locs) +
    (Le(|s.vv|, 4) + (s.vv + ([s.exp] + (Le(s.last, 4) + (Le(|s.pins|, 4) + EncPins(s.pins)))))))))
  }

  function DecDots(b: Wire, n: nat): Read<seq<U64>>
    decreases n
  {
    if n == 0 then Got([], b)
    else
      match TakeLe(b, 8)
      case Bad => Bad
      case Got(d, r) =>
        match DecDots(r, n - 1)
        case Bad => Bad
        case Got(ds, r') => Widths(); UnLeBack(b[..8]); Got([d as U64] + ds, r')
  }

  function DecLocs(b: Wire, n: nat): Read<seq<Loc>>
    decreases n
  {
    if n == 0 then Got([], b)
    else if |b| < 12 then Bad
    else
      match DecLocs(b[12..], n - 1)
      case Bad => Bad
      case Got(ls, r) =>
          Widths(); UnLeBack(b[..8]); UnLeBack(b[8..12]); Got([Loc(UnLe(b[..8]), UnLe(b[8..12]))] + ls, r)
  }

  function DecPins(b: Wire, n: nat): Read<seq<Pin>>
    decreases n
  {
    if n == 0 then Got([], b)
    else if |b| < 20 then Bad
    else
      match Take(b[20..], UnLe(b[16..20]))
      case Bad => Bad
      case Got(bits, r) =>
        match DecPins(r, n - 1)
        case Bad => Bad
        case Got(ps, r') => Got([Pin(b[..16], bits)] + ps, r')
  }

  lemma {:induction false} DotsBack(d: seq<U64>, rest: Wire)
    ensures DecDots(EncDots(d) + rest, |d|) == Got(d, rest)
  {
    hide Le, UnLe, Pow256, TakeLe;
    if d == [] { assert EncDots(d) + rest == rest; } else {
      Widths();
      TakeLeFront(d[0], 8, EncDots(d[1..]) + rest);
      DotsBack(d[1..], rest);
      assert EncDots(d) + rest == Le(d[0], 8) + (EncDots(d[1..]) + rest);
      assert [d[0]] + d[1..] == d;
    }
  }

  lemma Twelve(a: Wire, l: Wire, t: Wire)
    requires |a| == 8 && |l| == 4
    ensures var b := a + (l + t); |b| >= 12 && b[..8] == a && b[8..12] == l && b[12..] == t
  {}

  lemma {:induction false} LocsBack(l: seq<Loc>, rest: Wire)
    ensures DecLocs(EncLocs(l) + rest, |l|) == Got(l, rest)
  {
    hide Le, UnLe, Pow256;
    if l == [] { assert EncLocs(l) + rest == rest; } else {
      Widths();
      LeBack(l[0].addr, 8);
      LeBack(l[0].len, 4);
      LocsBack(l[1..], rest);
      Twelve(Le(l[0].addr, 8), Le(l[0].len, 4), EncLocs(l[1..]) + rest);
      assert EncLocs(l) + rest == Le(l[0].addr, 8) + (Le(l[0].len, 4) + (EncLocs(l[1..]) + rest));
      assert [l[0]] + l[1..] == l;
    }
  }

  lemma Slices(u: Wire, l: Wire, t: Wire)
    requires |u| == 16 && |l| == 4
    ensures var b := u + (l + t); b[..16] == u && b[16..20] == l && b[20..] == t
  {}

  lemma PinsFront(p: seq<Pin>, rest: Wire)
    requires p != []
    ensures EncPins(p) + rest == p[0].uuid + (Le(|p[0].bits|, 4) + (p[0].bits + (EncPins(p[1..]) + rest)))
  {
    hide Le;
  }

  lemma {:induction false} PinsBack(p: seq<Pin>, rest: Wire)
    requires forall i | 0 <= i < |p| :: |p[i].uuid| == 16 && |p[i].bits| < 0x1_0000_0000
    ensures DecPins(EncPins(p) + rest, |p|) == Got(p, rest)
  {
    hide Le, UnLe, Pow256, Take;
    if p == [] { assert EncPins(p) + rest == rest; } else {
      Widths();
      LeBack(|p[0].bits|, 4);
      PinsBack(p[1..], rest);
      var t := p[0].bits + (EncPins(p[1..]) + rest);
      Slices(p[0].uuid, Le(|p[0].bits|, 4), t);
      PinsFront(p, rest);
      TakeFront(p[0].bits, EncPins(p[1..]) + rest);
      assert [p[0]] + p[1..] == p;
    }
  }

  /** Counts are bounded by what is left before anything is read; both tables must have the same length. */
  function DecStream(b0: Wire): Read<Stream> {
    match TakeLe(b0, 4)
    case Bad => Bad
    case Got(n, b1) =>
      match DecDots(b1, n)
      case Bad => Bad
      case Got(dots, b2) =>
        match TakeLe(b2, 4)
        case Bad => Bad
        case Got(m, b3) =>
          if m != n then Bad else
          match DecLocs(b3, m)
          case Bad => Bad
          case Got(locs, b4) => DecStreamTail(dots, locs, b4)
  }

  function DecStreamTail(dots: seq<U64>, locs: seq<Loc>, b4: Wire): Read<Stream> {
    match TakeLe(b4, 4)
    case Bad => Bad
    case Got(vvLen, b5) =>
      match Take(b5, vvLen)
      case Bad => Bad
      case Got(vv, b6) =>
        if |b6| < 9 then Bad else
        match DecPins(b6[9..], UnLe(b6[5..9]))
        case Bad => Bad
        case Got(pins, b8) => Widths(); UnLeBack(b6[1..5]); Got(Stream(dots, locs, vv, b6[0], UnLe(b6[1..5]), pins), b8)
  }

  /** Decoding an encoded stream returns every field and leaves what follows. */
  lemma StreamBack(s: Stream, rest: Wire)
    requires WfStream(s)
    ensures DecStream(EncStream(s) + rest) == Got(s, rest)
  {
    hide Le, UnLe, Pow256, EncDots, EncLocs, EncPins, DecDots, DecLocs, DecPins, DecStreamTail, TakeLe;
    Widths();
    var t5 := s.vv + ([s.exp] + (Le(s.last, 4) + (Le(|s.pins|, 4) + EncPins(s.pins))));
    var t4 := Le(|s.vv|, 4) + t5;
    var t3 := EncLocs(s.locs) + t4;
    var t2 := Le(|s.locs|, 4) + t3;
    var t1 := EncDots(s.dots) + t2;
    assert EncStream(s) + rest == Le(|s.dots|, 4) + (t1 + rest);
    TakeLeFront(|s.dots|, 4, t1 + rest);
    assert t1 + rest == EncDots(s.dots) + (t2 + rest);
    DotsBack(s.dots, t2 + rest);
    assert t2 + rest == Le(|s.locs|, 4) + (t3 + rest);
    TakeLeFront(|s.locs|, 4, t3 + rest);
    assert t3 + rest == EncLocs(s.locs) + (t4 + rest);
    LocsBack(s.locs, t4 + rest);
    TailBack(s, rest);
  }

  lemma TailBack(s: Stream, rest: Wire)
    requires WfStream(s)
    ensures DecStreamTail(s.dots, s.locs,
              (Le(|s.vv|, 4) + (s.vv + ([s.exp] + (Le(s.last, 4) + (Le(|s.pins|, 4) + EncPins(s.pins)))))) + rest)
                  == Got(s, rest)
  {
    hide Le, UnLe, Pow256, EncPins, DecPins, TakeLe;
    Widths();
    var t7 := EncPins(s.pins) + rest;
    var t6 := [s.exp] + (Le(s.last, 4) + (Le(|s.pins|, 4) + t7));
    var b := (Le(|s.vv|, 4) + (s.vv + ([s.exp] + (Le(s.last, 4) + (Le(|s.pins|, 4) + EncPins(s.pins)))))) + rest;
    assert b == Le(|s.vv|, 4) + (s.vv + t6);
    TakeLeFront(|s.vv|, 4, s.vv + t6);
    TakeFront(s.vv, t6);
    Nine(s.exp, Le(s.last, 4), Le(|s.pins|, 4), t7);
    LeBack(s.last, 4);
    LeBack(|s.pins|, 4);
    PinsBack(s.pins, rest);
  }

  lemma Nine(e: Byte, l: Wire, p: Wire, t: Wire)
    requires |l| == |p| == 4
    ensures var b := [e] + (l + (p + t)); |b| >= 9 && b[0] == e && b[1..5] == l && b[5..9] == p && b[9..] == t
  {}

  // ---------------------------------------------------------------- the cursor and the write position

  lemma {:induction false} DotsSnoc(d: seq<U64>, i: nat)
    requires i < |d|
    ensures EncDots(d[..i + 1]) == EncDots(d[..i]) + Le(d[i], 8)
    decreases i
  {
    hide Le;
    if i > 0 {
      DotsSnoc(d[1..], i - 1);
      assert d[..i + 1][1..] == d[1..][..i] && d[..i][1..] == d[1..][..i - 1];
    } else {
      assert d[..1][1..] == [] && EncDots(d[..1]) == Le(d[0], 8) + [];
    }
  }

  lemma {:induction false} LocsSnoc(l: seq<Loc>, i: nat)
    requires i < |l|
    ensures EncLocs(l[..i + 1]) == EncLocs(l[..i]) + (Le(l[i].addr, 8) + Le(l[i].len, 4))
    decreases i
  {
    hide Le;
    if i > 0 {
      LocsSnoc(l[1..], i - 1);
      assert l[..i + 1][1..] == l[1..][..i] && l[..i][1..] == l[1..][..i - 1];
    } else {
      assert l[..1][1..] == [] && EncLocs(l[..1]) == Le(l[0].addr, 8) + Le(l[0].len, 4) + [];
    }
  }

  /** The encoder: a write position runs through the output, one loop per table. */
  method EmitStream(s: Stream) returns (out: Wire)
    ensures out == EncStream(s)
  {
    hide Le, EncPins;
    out := Le(|s.dots|, 4);
    ghost var head := out;
    for i := 0 to |s.dots|
      invariant out == head + EncDots(s.dots[..i])
    {
      DotsSnoc(s.dots, i);
      out := out + Le(s.dots[i], 8);
    }
    assert s.dots[..|s.dots|] == s.dots;
    out := out + Le(|s.locs|, 4);
    head := out;
    for i := 0 to |s.locs|
      invariant out == head + EncLocs(s.locs[..i])
    {
      LocsSnoc(s.locs, i);
      out := out + Le(s.locs[i].addr, 8) + Le(s.locs[i].len, 4);
    }
    assert s.locs[..|s.locs|] == s.locs;
    out := out + Le(|s.vv|, 4) + s.vv + [s.exp] + Le(s.last, 4) + Le(|s.pins|, 4) + EncPins(s.pins);
  }

  /** The pins loop of the decoder: every bitmap must end inside the body. */
  method ParsePins(buf: Wire, end: nat, off: nat, n: nat) returns (ok: bool, p: nat, pins: seq<Pin>)
    requires off <= end <= |buf|
    ensures match DecPins(buf[off..end], n)
            case Bad => !ok
            case Got(ps, rest) => ok && pins == ps && off <= p <= end && buf[p..end] == rest
  {
    hide Le, UnLe;
    p, pins, ok := off, [], true;
    var i := 0;
    ghost var whole := DecPins(buf[off..end], n);
    if whole.Got? { assert [] + whole.value == whole.value; }
    while i < n
      invariant 0 <= i <= n && off <= p <= end && ok
      invariant match DecPins(buf[p..end], n - i)
                case Bad => DecPins(buf[off..end], n).Bad?
                case Got(ps, rest) => DecPins(buf[off..end], n) == Got(pins + ps, rest)
    {
      var b := buf[p..end];
      if end - p < 20 { ok := false; return; }
      var len := UnLe(b[16..20]);
      if len > end - p - 20 { ok := false; return; }
      assert b[20..][..len] == b[20..20 + len] && b[20..][len..] == buf[p + 20 + len..end];
      ghost var more := DecPins(buf[p + 20 + len..end], n - i - 1);
      ghost var x := Pin(b[..16], b[20..20 + len]);
      if more.Got? { assert pins + ([x] + more.value) == (pins + [x]) + more.value; }
      pins := pins + [Pin(b[..16], b[20..20 + len])];
      p := p + 20 + len;
      i := i + 1;
    }
    assert pins + [] == pins;
  }

  lemma Step(buf: Wire, end: nat, p: nat, k: nat)
    requires p + k <= end <= |buf|
    ensures TakeLe(buf[p..end], k) == Got(UnLe(buf[p..p + k]), buf[p + k..end])
  {
    assert buf[p..end][..k] == buf[p..p + k] && buf[p..end][k..] == buf[p + k..end];
  }

  /** decode_stream_meta: a cursor bounded by the end of the body. */
  method ParseStream(buf: Wire, end: nat, off: nat) returns (ok: bool, p: nat, s: Stream)
    requires off <= end <= |buf|
    ensures match DecStream(buf[off..end])
            case Bad => !ok
            case Got(t, rest) => ok && s == t && off <= p <= end && buf[p..end] == rest
  {
    hide Le, UnLe, DecPins, DecDots, DecLocs, DecStreamTail;
    ok, p, s := false, off, Stream([], [], [], 0, 0, []);
    if p + 4 > end { return; }
    Step(buf, end, p, 4);
    var n := UnLe(buf[p..p + 4]);
    p := p + 4;
    if n > (end - p) / 8 { DotsTooMany(buf[p..end], n); return; }
    DotsFit(buf[p..end], n);
    var dots := DecDots(buf[p..end], n);
    assert buf[p..end][8 * n..] == buf[p + 8 * n..end];
    p := p + 8 * n;
    ok, p, s := ParseLocs(buf, end, p, n, dots.value);
  }

  method ParseLocs(buf: Wire, end: nat, off: nat, n: nat, dots: seq<U64>) returns (ok: bool, p: nat, s: Stream)
    requires off <= end <= |buf|
    ensures match TakeLe(buf[off..end], 4)
            case Bad => !ok
            case Got(m, b3) =>
              match DecLocs(b3, m)
              case Bad => !ok
              case Got(locs, b4) =>
                match DecStreamTail(dots, locs, b4)
                case Bad => !ok
                case Got(t, rest) => if m != n then !ok else ok && s == t && off <= p <= end && buf[p..end] == rest
  {
    hide Le, UnLe, DecPins, DecLocs, DecStreamTail;
    ok, p, s := false, off, Stream([], [], [], 0, 0, []);
    if p + 4 > end { return; }
    Step(buf, end, p, 4);
    var m := UnLe(buf[p..p + 4]);
    p := p + 4;
    if m > (end - p) / 12 { LocsTooMany(buf[p..end], m); return; }
    if m != n { return; }
    LocsFit(buf[p..end], m);
    var locs := DecLocs(buf[p..end], m);
    assert buf[p..end][12 * m..] == buf[p + 12 * m..end];
    p := p + 12 * m;
    ok, p, s := ParseTail(buf, end, p, dots, locs.value);
  }

  method ParseTail(buf: Wire, end: nat, off: nat, dots: seq<U64>, locs: seq<Loc>) returns (ok: bool, p: nat, s: Stream)
    requires off <= end <= |buf|
    ensures match DecStreamTail(dots, locs, buf[off..end])
            case Bad => !ok
            case Got(t, rest) => ok && s == t && off <= p <= end && buf[p..end] == rest
  {
    hide Le, UnLe, DecPins;
    ok, p, s := false, off, Stream([], [], [], 0, 0, []);
    if p + 4 > end { return; }
    var b := buf[p..end];
    var len := UnLe(b[..4]);
    p := p + 4;
    assert buf[p..end] == b[4..];
    if len > end - p { return; }
    var vv := buf[p..p + len];
    assert buf[p..end][..len] == vv && buf[p..end][len..] == buf[p + len..end];
    p := p + len;
    if p + 1 > end || p + 5 > end || p + 9 > end { return; }
    var c := buf[p..end];
    Widths();
    UnLeBack(c[1..5]);
    var pins;
    ghost var q := p + 9;
    assert buf[q..end] == c[9..];
    ok, p, pins := ParsePins(buf, end, p + 9, UnLe(c[5..9]));
    if ok { s := Stream(dots, locs, vv, c[0], UnLe(c[1..5]), pins); }
  }

  lemma {:induction false} DotsTooMany(b: Wire, n: nat)
    requires n > |b| / 8
    ensures DecDots(b, n).Bad?
    decreases n
  {
    hide UnLe, Le;
    if |b| >= 8 { DotsTooMany(b[8..], n - 1); }
  }

  lemma {:induction false} DotsFit(b: Wire, n: nat)
    requires n <= |b| / 8
    ensures DecDots(b, n).Got? && DecDots(b, n).rest == b[8 * n..]
    decreases n
  {
    hide UnLe, Le;
    if n > 0 { DotsFit(b[8..], n - 1); assert b[8..][8 * (n - 1)..] == b[8 * n..]; } else { assert b[0..] == b; }
  }

  lemma {:induction false} LocsTooMany(b: Wire, n: nat)
    requires n > |b| / 12
    ensures DecLocs(b, n).Bad?
    decreases n
  {
    hide UnLe, Le;
    if |b| >= 12 { LocsTooMany(b[12..], n - 1); }
  }

  lemma {:induction false} LocsFit(b: Wire, n: nat)
    requires n <= |b| / 12
    ensures DecLocs(b, n).Got? && DecLocs(b, n).rest == b[12 * n..]
    decreases n
  {
    hide UnLe, Le;
    if n > 0 { LocsFit(b[12..], n - 1); assert b[12..][12 * (n - 1)..] == b[12 * n..]; } else { assert b[0..] == b; }
  }

  // ---------------------------------------------------------------- unit records

  /** "sfsu", zero, "r1", zero. */
  const MAGIC: Wire := [0x73, 0x66, 0x73, 0x75, 0x00, 0x72, 0x31, 0x00]

  datatype Record = Record(uuid: Wire, parent: Option<U64>, content: Option<Stream>, meta: Option<Stream>, strains: nat,
                           suite: Option<U16>, fragSuites: Wire, sig: Option<Wire>, db: Option<Wire>)

  /** What the encoder is given: no strains, a content suite, well-formed parts. */
  ghost predicate Encodable(r: Record) {
    && |r.uuid| == 16 && r.strains == 0 && r.suite.Some?
    && |r.fragSuites| % 2 == 0 && |r.fragSuites| / 2 < 0x1_0000_0000
    && (r.content.Some? ==> WfStream(r.content.value) && 12 <= r.content.value.exp <= 25)
    && (r.meta.Some? ==> WfStream(r.meta.value))
    && (r.sig.Some? ==> |r.sig.value| == 64) && (r.db.Some? ==> |r.db.value| == 33)
  }

  function EncOpt(s: Option<Stream>): Wire { if s.Some? then EncStream(s.value) else [] }

  function Flagged(o: Option<Wire>): Wire { if o.Some? then [1] + o.value else [0] }

  function ParentWire(p: Option<U64>): Wire { if p.Some? then [1] + Le(p.value, 8) else [0] }

  function Flags(r: Record): Byte { (if r.content.Some? then 1 else 0) + (if r.meta.Some? then 2 else 0) }

  /** The trailing fields in their fixed order. */
  function EncTail(r: Record): Wire
    requires r.suite.Some?
  {
    Le(0, 4) + ([1] + (Le(r.suite.value, 2) + (Le(|r.fragSuites| / 2, 4)
        + (r.fragSuites + (Flagged(r.sig) + Flagged(r.db))))))
  }

  function EncBody(r: Record): Wire
    requires r.suite.Some?
  {
    r.uuid + (ParentWire(r.parent) + ([Flags(r)] + (EncOpt(r.content) + (EncOpt(r.meta) + EncTail(r)))))
  }

  function Encode(r: Record, crc: Wire -> U32): Wire
    requires r.suite.Some?
  {
    var b := MAGIC + EncBody(r);
    b + Le(crc(b), 4)
  }

  function DecParent(b: Wire): Read<Option<U64>> {
    if b == [] || b[0] > 1 then Bad
    else if b[0] == 0 then Got(None, b[1..])
    else if |b| < 9 then Bad
    else Widths(); UnLeBack(b[1..9]); Got(Some(UnLe(b[1..9])), b[9..])
  }

  function DecOpt(present: bool, b: Wire): Read<Option<Stream>> {
    if !present then Got(None, b)
    else match DecStream(b) case Bad => Bad case Got(s, r) => Got(Some(s), r)
  }

  /** A record may end before any of the trailing fields. */
  function DecStrains(b: Wire): Read<nat> {
    if b == [] then Got(0, b)
    else if |b| < 4 then Bad
    else var n := UnLe(b[..4]); if n > (|b| - 4) / 8 then Bad else Got(n, b[4 + 8 * n..])
  }

  function DecSuite(b: Wire): Read<Option<U16>> {
    if b == [] then Got(None, b)
    else if b[0] == 0 then Got(None, b[1..])
    else if b[0] != 1 || |b| < 3 then Bad
    else Widths(); UnLeBack(b[1..3]); Got(Some(UnLe(b[1..3])), b[3..])
  }

  function DecSuites(b: Wire): Read<Wire> {
    if b == [] then Got([], b)
    else if |b| < 4 then Bad
    else var n := UnLe(b[..4]); if n > (|b| - 4) / 2 then Bad else Got(b[4..4 + 2 * n], b[4 + 2 * n..])
  }

  function DecFlagged(b: Wire, k: nat): Read<Option<Wire>> {
    if b == [] then Got(None, b)
    else if b[0] == 0 then Got(None, b[1..])
    else if b[0] != 1 || |b| < 1 + k then Bad
    else Got(Some(b[1..1 + k]), b[1 + k..])
  }

  function DecTail(uuid: Wire, parent: Option<U64>, content: Option<Stream>, meta: Option<Stream>,
      b0: Wire): Option<Record> {
    match DecStrains(b0)
    case Bad => None
    case Got(n, b1) =>
      match DecSuite(b1)
      case Bad => None
      case Got(suite, b2) =>
        match DecSuites(b2)
        case Bad => None
        case Got(suites, b3) =>
          match DecFlagged(b3, 64)
          case Bad => None
          case Got(sig, b4) =>
            match DecFlagged(b4, 33)
            case Bad => None
            case Got(db, _) => Some(Record(uuid, parent, content, meta, n, suite, suites, sig, db))
  }

  function DecBody(b0: Wire): Option<Record> {
    match Take(b0, 16)
    case Bad => None
    case Got(uuid, b1) =>
      match DecParent(b1)
      case Bad => None
      case Got(parent, b2) =>
        if b2 == [] || b2[0] > 3 then None else
        match DecOpt(b2[0] % 2 == 1, b2[1..])
        case Bad => None
        case Got(content, b3) =>
          match DecOpt(b2[0] >= 2, b3)
          case Bad => None
          case Got(meta, b4) =>
            if content.Some? && !(12 <= content.value.exp <= 25) then None else DecTail(uuid, parent, content, meta, b4)
  }

  function Decode(b: Wire, crc: Wire -> U32): Option<Record> {
    if |b| < 30 || b[..8] != MAGIC then None
    else
      var end := |b| - 4;
      if UnLe(b[end..]) != crc(b[..end]) then None else DecBody(b[8..end])
  }

  // ---------------------------------------------------------------- the record comes back

  lemma FlaggedBack(o: Option<Wire>, k: nat, rest: Wire)
    requires o.Some? ==> |o.value| == k
    ensures DecFlagged(Flagged(o) + rest, k) == Got(o, rest)
  {
    if o.Some? {
      var b := Flagged(o) + rest;
      assert b == [1] + (o.value + rest);
      assert b[1..1 + k] == o.value && b[1 + k..] == rest;
    } else {
      assert (Flagged(o) + rest)[1..] == rest;
    }
  }

  lemma ParentBack(p: Option<U64>, rest: Wire)
    ensures DecParent(ParentWire(p) + rest) == Got(p, rest)
  {
    hide Le, UnLe, Pow256;
    Widths();
    if p.Some? {
      LeBack(p.value, 8);
      var b := ParentWire(p) + rest;
      assert b == [1] + (Le(p.value, 8) + rest);
      assert b[1..9] == Le(p.value, 8) && b[9..] == rest;
    } else {
      assert (ParentWire(p) + rest)[1..] == rest;
    }
  }

  lemma OptBack(s: Option<Stream>, rest: Wire)
    requires s.Some? ==> WfStream(s.value)
    ensures DecOpt(s.Some?, EncOpt(s) + rest) == Got(s, rest)
  {
    hide EncStream, DecStream;
    if s.Some? { StreamBack(s.value, rest); } else { assert EncOpt(s) + rest == rest; }
  }

  lemma SuitesBack(t: Wire, n: nat, rest: Wire)
    requires |t| == 2 * n && n < 0x1_0000_0000
    ensures DecSuites(Le(n, 4) + (t + rest)) == Got(t, rest)
  {
    hide Le, UnLe, Pow256;
    Widths();
    LeBack(n, 4);
    var b := Le(n, 4) + (t + rest);
    assert b[..4] == Le(n, 4) && b[4..] == t + rest;
    assert b[4..4 + 2 * n] == t && b[4 + 2 * n..] == rest;
    assert n <= (|b| - 4) / 2;
  }

  lemma SuiteBack(u: U16, rest: Wire)
    ensures DecSuite([1] + (Le(u, 2) + rest)) == Got(Some(u), rest)
  {
    hide Le, UnLe, Pow256;
    Widths();
    LeBack(u, 2);
    var b := [1] + (Le(u, 2) + rest);
    assert b[1..3] == Le(u, 2) && b[3..] == rest;
  }

  lemma StrainsBack(rest: Wire)
    ensures DecStrains(Le(0, 4) + rest) == Got(0, rest)
  {
    Widths();
    LeBack(0, 4);
    hide Le, UnLe;
    assert (Le(0, 4) + rest)[..4] == Le(0, 4) && (Le(0, 4) + rest)[4..] == rest;
  }

  lemma RecordTailBack(r: Record)
    requires Encodable(r)
    ensures DecTail(r.uuid, r.parent, r.content, r.meta, EncTail(r)) == Some(r)
  {
    hide Le, UnLe, WfStream, DecStrains, DecSuite, DecSuites, DecFlagged, Flagged;
    var t4 := Flagged(r.sig) + Flagged(r.db);
    var t3 := Le(|r.fragSuites| / 2, 4) + (r.fragSuites + t4);
    var t2 := [1] + (Le(r.suite.value, 2) + t3);
    StrainsBack(t2);
    SuiteBack(r.suite.value, t3);
    SuitesBack(r.fragSuites, |r.fragSuites| / 2, t4);
    FlaggedBack(r.sig, 64, Flagged(r.db));
    FlaggedBack(r.db, 33, []);
    assert Flagged(r.db) + [] == Flagged(r.db);
  }

  lemma BodyBack(r: Record)
    requires Encodable(r)
    ensures DecBody(EncBody(r)) == Some(r)
  {
    hide Le, UnLe, WfStream, DecTail, EncTail, DecOpt, EncOpt, DecParent, ParentWire;
    var t4 := EncTail(r);
    var t3 := EncOpt(r.meta) + t4;
    var t2 := EncOpt(r.content) + t3;
    var t1 := [Flags(r)] + t2;
    TakeFront(r.uuid, ParentWire(r.parent) + t1);
    ParentBack(r.parent, t1);
    assert t1[0] == Flags(r) && t1[1..] == t2;
    OptBack(r.content, t3);
    OptBack(r.meta, t4);
    RecordTailBack(r);
  }

  /** Decoding an encoded record returns every field. */
  lemma RecordRoundTrip(r: Record, crc: Wire -> U32)
    requires Encodable(r)
    ensures Decode(Encode(r, crc), crc) == Some(r)
  {
    hide DecBody, Le, UnLe, WfStream, Pow256;
    Widths();
    BodyBack(r);
    var b := MAGIC + EncBody(r);
    LeBack(crc(b), 4);
    var e := Encode(r, crc);
    assert e[..8] == MAGIC && e[..|e| - 4] == b && e[|e| - 4..] == Le(crc(b), 4) && e[8..|e| - 4] == EncBody(r);
    BodyLength(r);
  }

  lemma BodyLength(r: Record)
    requires r.suite.Some? && |r.uuid| == 16
    ensures |EncBody(r)| >= 30
  {
    hide Le;
  }

  /** Any single damaged byte that changes the checksum is refused. */
  lemma DamageRefused(r: Record, crc: Wire -> U32, b: Wire)
    requires Encodable(r) && |b| == |Encode(r, crc)| && b[|b| - 4..] == Encode(r, crc)[|b| - 4..]
    requires crc(b[..|b| - 4]) != crc(MAGIC + EncBody(r))
    ensures Decode(b, crc) == None
  {
    hide DecBody, Le, UnLe, WfStream, Pow256;
    Widths();
    var body := MAGIC + EncBody(r);
    LeBack(crc(body), 4);
    assert Encode(r, crc)[|body|..] == Le(crc(body), 4);
  }

  // ---------------------------------------------------------------- the signed payload

  /** The fields of one stream that the signature covers: not its locations and not its pins. */
  datatype Signed = Signed(dots: seq<U64>, vv: Wire, exp: Byte, last: U32)

  ghost predicate WfSigned(s: Signed) { |s.dots| < 0x1_0000_0000 && |s.vv| < 0x1_0000_0000 }

  function SignedOf(s: Stream): Signed { Signed(s.dots, s.vv, s.exp, s.last) }

  function EncSigned(s: Signed): Wire {
    Le(|s.dots|, 4) + (EncDots(s.dots) + (Le(|s.vv|, 4) + (s.vv + ([s.exp] + Le(s.last, 4)))))
  }

  /** "sfsu-sig" and "sfsu-db". */
  const SIG_TAG: Wire := [0x73, 0x66, 0x73, 0x75, 0x2D, 0x73, 0x69, 0x67]
  const DB_TAG: Wire := [0x73, 0x66, 0x73, 0x75, 0x2D, 0x64, 0x62]

  function OptSigned(s: Option<Signed>): Wire { if s.Some? then EncSigned(s.value) else [] }

  function SignFlags(c: Option<Signed>, m: Option<Signed>): Byte
      { (if c.Some? then 1 else 0) + (if m.Some? then 2 else 0) }

  function Payload(uuid: Wire, c: Option<Signed>, m: Option<Signed>, db: Option<Wire>): Wire {
    SIG_TAG + (uuid + ([SignFlags(c, m)] + (OptSigned(c)
        + (OptSigned(m) + (if db.Some? then DB_TAG + db.value else [])))))
  }

  function SignedOpt(s: Option<Stream>): Option<Signed> { if s.Some? then Some(SignedOf(s.value)) else None }

  /** The payload of a parsed record. */
  function RecordPayload(r: Record): Wire { Payload(r.uuid, SignedOpt(r.content), SignedOpt(r.meta), r.db) }

  /** Reads the signed fields straight out of encoded stream bytes; nothing after them is looked at. */
  function SignedFromWire(b0: Wire): Option<Signed> {
    match TakeLe(b0, 4)
    case Bad => None
    case Got(n, b1) =>
      match DecDots(b1, n)
      case Bad => None
      case Got(dots, b2) =>
        match TakeLe(b2, 4)
        case Bad => None
        case Got(m, b3) =>
          if m != n || m > |b3| / 12 then None
          else SignedTail(dots, b3[12 * m..])
  }

  function SignedTail(dots: seq<U64>, b4: Wire): Option<Signed> {
    match TakeLe(b4, 4)
    case Bad => None
    case Got(vvLen, b5) =>
      match Take(b5, vvLen)
      case Bad => None
      case Got(vv, b6) =>
        if |b6| < 5 then None else Widths(); UnLeBack(b6[1..5]); Some(Signed(dots, vv, b6[0], UnLe(b6[1..5])))
  }

  lemma {:induction false} LocsLength(l: seq<Loc>)
    ensures |EncLocs(l)| == 12 * |l|
  {
    hide Le;
    if l != [] { LocsLength(l[1..]); }
  }

  /** Both ways of collecting the signed fields agree. */
  lemma SameSigned(s: Stream)
    requires WfStream(s)
    ensures SignedFromWire(EncStream(s)) == Some(SignedOf(s))
  {
    hide Le, UnLe, Pow256, EncDots, EncLocs, EncPins, DecDots, SignedTail, TakeLe;
    Widths();
    var t4 := Le(|s.vv|, 4) + (s.vv + ([s.exp] + (Le(s.last, 4) + (Le(|s.pins|, 4) + EncPins(s.pins)))));
    var t3 := EncLocs(s.locs) + t4;
    var t2 := Le(|s.locs|, 4) + t3;
    TakeLeFront(|s.dots|, 4, EncDots(s.dots) + t2);
    DotsBack(s.dots, t2);
    TakeLeFront(|s.locs|, 4, t3);
    LocsLength(s.locs);
    assert t3[12 * |s.locs|..] == t4;
    SignedTailBack(s);
  }

  lemma SignedTailBack(s: Stream)
    requires WfStream(s)
    ensures SignedTail(s.dots, Le(|s.vv|, 4) + (s.vv
        + ([s.exp] + (Le(s.last, 4) + (Le(|s.pins|, 4) + EncPins(s.pins)))))) == Some(SignedOf(s))
  {
    hide Le, UnLe, Pow256, EncPins, TakeLe;
    Widths();
    var t6 := [s.exp] + (Le(s.last, 4) + (Le(|s.pins|, 4) + EncPins(s.pins)));
    TakeLeFront(|s.vv|, 4, s.vv + t6);
    TakeFront(s.vv, t6);
    Nine(s.exp, Le(s.last, 4), Le(|s.pins|, 4), EncPins(s.pins));
    LeBack(s.last, 4);
  }

  /** The payload built from the encoder's parts, without decoding a record. */
  function PartsPayload(uuid: Wire, content: Wire, meta: Wire, db: Option<Wire>): Option<Wire> {
    var c := if content == [] then None else SignedFromWire(content);
    var m := if meta == [] then None else SignedFromWire(meta);
    if (content != [] && c.None?) || (meta != [] && m.None?) then None else Some(Payload(uuid, c, m, db))
  }

  /** Signing before writing and verifying after reading see the same bytes. */
  lemma PayloadsAgree(r: Record, crc: Wire -> U32)
    requires Encodable(r)
    ensures var d := Decode(Encode(r, crc), crc);
            d.Some? && PartsPayload(r.uuid, EncOpt(r.content), EncOpt(r.meta), r.db) == Some(RecordPayload(d.value))
  {
    hide Decode, Encode, WfStream, SignedFromWire, EncStream, Payload;
    RecordRoundTrip(r, crc);
    if r.content.Some? { SameSigned(r.content.value); StreamNonEmpty(r.content.value); }
    if r.meta.Some? { SameSigned(r.meta.value); StreamNonEmpty(r.meta.value); }
  }

  lemma StreamNonEmpty(s: Stream)
    ensures EncStream(s) != []
  {
    hide Le, EncDots, EncLocs, EncPins;
  }

  // ---------------------------------------------------------------- injectivity

  function DecSigned(b0: Wire): Read<Signed> {
    match TakeLe(b0, 4)
    case Bad => Bad
    case Got(n, b1) =>
      match DecDots(b1, n)
      case Bad => Bad
      case Got(dots, b2) =>
        match TakeLe(b2, 4)
        case Bad => Bad
        case Got(vvLen, b3) =>
          match Take(b3, vvLen)
          case Bad => Bad
          case Got(vv, b4) =>
              if |b4| < 5 then Bad else
                Widths(); UnLeBack(b4[1..5]); Got(Signed(dots, vv, b4[0], UnLe(b4[1..5])), b4[5..])
  }

  lemma SignedBack(s: Signed, rest: Wire)
    requires WfSigned(s)
    ensures DecSigned(EncSigned(s) + rest) == Got(s, rest)
  {
    hide Le, UnLe, Pow256, EncDots, DecDots, TakeLe;
    Widths();
    var t4 := [s.exp] + (Le(s.last, 4) + rest);
    var t3 := s.vv + t4;
    var t2 := Le(|s.vv|, 4) + t3;
    assert EncSigned(s) + rest == Le(|s.dots|, 4) + (EncDots(s.dots) + t2);
    TakeLeFront(|s.dots|, 4, EncDots(s.dots) + t2);
    DotsBack(s.dots, t2);
    TakeLeFront(|s.vv|, 4, t3);
    TakeFront(s.vv, t4);
    LeBack(s.last, 4);
    assert t4[1..5] == Le(s.last, 4) && t4[5..] == rest;
  }

  lemma OptInjective(s: Option<Signed>, a: Wire, t: Option<Signed>, b: Wire)
    requires s.Some? == t.Some? && (s.Some? ==> WfSigned(s.value)) && (t.Some? ==> WfSigned(t.value))
    requires OptSigned(s) + a == OptSigned(t) + b
    ensures s == t && a == b
  {
    hide EncSigned, DecSigned;
    if s.Some? {
      SignedBack(s.value, a);
      SignedBack(t.value, b);
    } else {
      assert OptSigned(s) + a == a && OptSigned(t) + b == b;
    }
  }

  ghost predicate Signable(uuid: Wire, c: Option<Signed>, m: Option<Signed>, db: Option<Wire>) {
    |uuid| == 16 && (c.Some? ==> WfSigned(c.value)) && (m.Some? ==> WfSigned(m.value))
        && (db.Some? ==> |db.value| == 33)
  }

  lemma SplitFront(a: Wire, x: Wire, b: Wire, y: Wire)
    requires |a| == |b| && a + x == b + y
    ensures a == b && x == y
  {
    assert (a + x)[..|a|] == a && (b + y)[..|b|] == b && (a + x)[|a|..] == x && (b + y)[|b|..] == y;
  }

  /** One signature covers one set of signed fields: the payload tells them all apart. */
  lemma PayloadInjective(u: Wire, c: Option<Signed>, m: Option<Signed>, d: Option<Wire>,
                         u': Wire, c': Option<Signed>, m': Option<Signed>, d': Option<Wire>)
    requires Signable(u, c, m, d) && Signable(u', c', m', d') && Payload(u, c, m, d) == Payload(u', c', m', d')
    ensures u == u' && c == c' && m == m' && d == d'
  {
    hide OptSigned, WfSigned;
    var t, t' := if d.Some? then DB_TAG + d.value else [], if d'.Some? then DB_TAG + d'.value else [];
    var f, f' := [SignFlags(c, m)], [SignFlags(c', m')];
    SplitFront(SIG_TAG, u + (f + (OptSigned(c) + (OptSigned(m) + t))), SIG_TAG, u'
        + (f' + (OptSigned(c') + (OptSigned(m') + t'))));
    SplitFront(u, f + (OptSigned(c) + (OptSigned(m) + t)), u', f' + (OptSigned(c') + (OptSigned(m') + t')));
    SplitFront(f, OptSigned(c) + (OptSigned(m) + t), f', OptSigned(c') + (OptSigned(m') + t'));
    assert f[0] == f'[0];
    OptInjective(c, OptSigned(m) + t, c', OptSigned(m') + t');
    OptInjective(m, t, m', t');
    if d.Some? && d'.Some? { SplitFront(DB_TAG, d.value, DB_TAG, d'.value); } else { assert |t| == |t'|; }
  }

  // ---------------------------------------------------------------- maintenance rewrites

  /**
   A relocation: new addresses, no parent link, everything else and the signature as before; strained records
   are refused.
   */
  function Rewrite(r: Record, addrs: seq<U64>): Option<Record>
    requires r.content.Some? ==> |addrs| == |r.content.value.locs|
  {
    if r.content.None? || r.suite.None? || r.strains != 0 then None
    else Some(r.(parent := None, content := Some(r.content.value.(locs := Moved(r.content.value.locs, addrs)))))
  }

  function Moved(locs: seq<Loc>, addrs: seq<U64>): (m: seq<Loc>)
    requires |addrs| == |locs|
    ensures |m| == |locs|
  {
    seq(|locs|, i requires 0 <= i < |locs| => Loc(addrs[i], locs[i].len))
  }

  lemma RewriteSigned(r: Record, addrs: seq<U64>)
    requires Encodable(r) && r.content.Some? && |addrs| == |r.content.value.locs|
    ensures var w := Rewrite(r, addrs);
        w.Some? && Encodable(w.value) && w.value.sig == r.sig && RecordPayload(w.value) == RecordPayload(r)
  {
    hide Payload;
  }

  /** The old signature still verifies: what it covers reads back unchanged, and so does the signature itself. */
  lemma RewriteKeepsSignature(r: Record, addrs: seq<U64>, crc: Wire -> U32)
    requires Encodable(r) && r.content.Some? && |addrs| == |r.content.value.locs|
    ensures var w := Rewrite(r, addrs);
            w.Some? && w.value.suite.Some? && Decode(Encode(w.value, crc), crc) == w
            && RecordPayload(w.value) == RecordPayload(r) && w.value.sig == r.sig
  {
    hide Decode, Encode, RecordPayload, Rewrite;
    RewriteSigned(r, addrs);
    RecordRoundTrip(Rewrite(r, addrs).value, crc);
  }
}
