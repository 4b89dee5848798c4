/**
 The canonical 32-byte encoding of a field element (kernel/sfs_ed25519.c:1345-1475;
 section 5.1.2 of RFC 8032).
 */
module FieldBytes {
  import opened Base
  import opened Field

  // ---------------------------------------------------------------- the quotient by the modulus

  /** Arithmetic shifts right. */
  function Down26(x: int): (c: int)
    ensures 0 <= x - 0x400_0000 * c < 0x400_0000
  {
    x / 0x400_0000
  }

  function Down25(x: int): (c: int)
    ensures 0 <= x - 0x200_0000 * c < 0x200_0000
  {
    x / 0x200_0000
  }

  /** The starting guess, from the top limb alone. */
  function Guess(h: Limbs): int { Down25(19 * h.a9 + 0x100_0000) }

  /** The guess carried up through limbs 0 to n. */
  function Climb(h: Limbs, n: nat): int
    requires n <= 10
  {
    if n == 0 then Guess(h)
    else if n % 2 == 1 then Down26(At(h, n - 1) + Climb(h, n - 1))
    else Down25(At(h, n - 1) + Climb(h, n - 1))
  }

  /** The nested shifts are one division by 2^255. */
  lemma ClimbIsDivision(h: Limbs)
    ensures 0 <= Val(h) + Guess(h) - 0x8000000000000000000000000000000000000000000000000000000000000000
        * Climb(h, 10) < 0x8000000000000000000000000000000000000000000000000000000000000000
  {
    hide Down26, Down25, Guess;
    assert Climb(h, 0) == Guess(h);
    var q1 := Climb(h, 1);
    assert q1 == Down26(h.a0 + Guess(h));
    var q2 := Climb(h, 2);
    assert q2 == Down25(h.a1 + q1);
    var q3 := Climb(h, 3);
    assert q3 == Down26(h.a2 + q2);
    var q4 := Climb(h, 4);
    assert q4 == Down25(h.a3 + q3);
    var q5 := Climb(h, 5);
    assert q5 == Down26(h.a4 + q4);
    var q6 := Climb(h, 6);
    assert q6 == Down25(h.a5 + q5);
    var q7 := Climb(h, 7);
    assert q7 == Down26(h.a6 + q6);
    var q8 := Climb(h, 8);
    assert q8 == Down25(h.a7 + q7);
    var q9 := Climb(h, 9);
    assert q9 == Down26(h.a8 + q8);
    var q10 := Climb(h, 10);
    assert q10 == Down25(h.a9 + q9);
  }

  /** The quotient is exact: what remains lies in [0, 2^255 - 19). */
  lemma QuotientExact(h: Limbs)
    requires Within(h, 73819750, 36909875)
    ensures 0 <= Val(h) - 0x7FFFFFFFFFFFFFFFFFFFFFFFFFFFFFFFFFFFFFFFFFFFFFFFFFFFFFFFFFFFFFED
        * Climb(h, 10) < 0x7FFFFFFFFFFFFFFFFFFFFFFFFFFFFFFFFFFFFFFFFFFFFFFFFFFFFFFFFFFFFFED
  {
    ClimbIsDivision(h);
    hide Climb, Guess;
    var q0 := Guess(h);
    assert 0 <= 19 * h.a9 + 0x100_0000 - 0x200_0000 * q0 < 0x200_0000 by { GuessRange(h); }
    Remainder(h, q0, Climb(h, 10));
  }

  lemma GuessRange(h: Limbs)
    ensures 0 <= 19 * h.a9 + 0x100_0000 - 0x200_0000 * Guess(h) < 0x200_0000
  {}

  lemma Remainder(h: Limbs, q0: int, q: int)
    requires Within(h, 73819750, 36909875)
    requires 0 <= 19 * h.a9 + 0x100_0000 - 0x200_0000 * q0 < 0x200_0000
    requires 0 <= Val(h) + q0 - 0x8000000000000000000000000000000000000000000000000000000000000000 * q
            < 0x8000000000000000000000000000000000000000000000000000000000000000
    ensures 0 <= Val(h) - 0x7FFFFFFFFFFFFFFFFFFFFFFFFFFFFFFFFFFFFFFFFFFFFFFFFFFFFFFFFFFFFFED * q
            < 0x7FFFFFFFFFFFFFFFFFFFFFFFFFFFFFFFFFFFFFFFFFFFFFFFFFFFFFFFFFFFFFED
  {
    var low := Val(h) - 0x4000000000000000000000000000000000000000000000000000000000 * h.a9;
    assert Lim(low, 0x8000000000000000000000000000000000000000000000000000000000);
    var r, d := Val(h) + q0 - 0x8000000000000000000000000000000000000000000000000000000000000000 * q, q0 - 19 * q;
    hide Val;
    assert Lim(q0, 24);
    assert d >= 0;
    assert d <= 19;
    assert r < 19 ==> d == 0;
    assert d < 19 ==> r < 0x7FFFFFFFFFFFFFFFFFFFFFFFFFFFFFFFFFFFFFFFFFFFFFFFFFFFFFFFFFFFFFED;
    assert Val(h) - 0x7FFFFFFFFFFFFFFFFFFFFFFFFFFFFFFFFFFFFFFFFFFFFFFFFFFFFFFFFFFFFFED * q == r - d;
  }

  // ---------------------------------------------------------------- the reduced limbs

  /** One floor carry out of limb i; the one out of the top is dropped. */
  function Sink(h: Limbs, i: nat): Limbs
    requires i < 10
  {
    match i
    case 0 => var c := Down26(h.a0); h.(a0 := h.a0 - 0x400_0000 * c, a1 := h.a1 + c)
    case 1 => var c := Down25(h.a1); h.(a1 := h.a1 - 0x200_0000 * c, a2 := h.a2 + c)
    case 2 => var c := Down26(h.a2); h.(a2 := h.a2 - 0x400_0000 * c, a3 := h.a3 + c)
    case 3 => var c := Down25(h.a3); h.(a3 := h.a3 - 0x200_0000 * c, a4 := h.a4 + c)
    case 4 => var c := Down26(h.a4); h.(a4 := h.a4 - 0x400_0000 * c, a5 := h.a5 + c)
    case 5 => var c := Down25(h.a5); h.(a5 := h.a5 - 0x200_0000 * c, a6 := h.a6 + c)
    case 6 => var c := Down26(h.a6); h.(a6 := h.a6 - 0x400_0000 * c, a7 := h.a7 + c)
    case 7 => var c := Down25(h.a7); h.(a7 := h.a7 - 0x200_0000 * c, a8 := h.a8 + c)
    case 8 => var c := Down26(h.a8); h.(a8 := h.a8 - 0x400_0000 * c, a9 := h.a9 + c)
    case _ => h.(a9 := h.a9 - 0x200_0000 * Down25(h.a9))
  }

  /** The first k of the ten floor carries. */
  function Sunk(g: Limbs, k: nat): Limbs
    requires k <= 10
  {
    if k == 0 then g else Sink(Sunk(g, k - 1), k - 1)
  }

  /** The modulus taken out, then ten floor carries. */
  function Reduced(h: Limbs): Limbs {
    var g := h.(a0 := h.a0 + 19 * Climb(h, 10));
    Sunk(g, 10)
  }

  predicate Proper(r: Limbs) {
    && 0 <= r.a0 < 0x400_0000 && 0 <= r.a1 < 0x200_0000 && 0 <= r.a2 < 0x400_0000 && 0 <= r.a3 < 0x200_0000
        && 0 <= r.a4 < 0x400_0000
    && 0 <= r.a5 < 0x200_0000 && 0 <= r.a6 < 0x400_0000 && 0 <= r.a7 < 0x200_0000 && 0 <= r.a8 < 0x400_0000
        && 0 <= r.a9 < 0x200_0000
  }

  /** Ten floor carries leave proper limbs and drop a multiple of 2^255. */
  lemma SinkAll(g: Limbs) returns (c: int)
    ensures var r := Sunk(g, 10);
      Proper(r) && Val(g) == Val(r) + 0x8000000000000000000000000000000000000000000000000000000000000000 * c
  {
    hide Down26, Down25;
    assert Sunk(g, 0) == g;
    var g0 := Sunk(g, 1);
    assert g0 == Sink(g, 0);
    SinkValue(g, 0);
    var g1 := Sunk(g, 2);
    assert g1 == Sink(g0, 1);
    SinkValue(g0, 1);
    var g2 := Sunk(g, 3);
    assert g2 == Sink(g1, 2);
    SinkValue(g1, 2);
    var g3 := Sunk(g, 4);
    assert g3 == Sink(g2, 3);
    SinkValue(g2, 3);
    var g4 := Sunk(g, 5);
    assert g4 == Sink(g3, 4);
    SinkValue(g3, 4);
    var g5 := Sunk(g, 6);
    assert g5 == Sink(g4, 5);
    SinkValue(g4, 5);
    var g6 := Sunk(g, 7);
    assert g6 == Sink(g5, 6);
    SinkValue(g5, 6);
    var g7 := Sunk(g, 8);
    assert g7 == Sink(g6, 7);
    SinkValue(g6, 7);
    var g8 := Sunk(g, 9);
    assert g8 == Sink(g7, 8);
    SinkValue(g7, 8);
    var r := Sunk(g, 10);
    assert r == Sink(g8, 9);
    assert Proper(r) by { hide Val; }
    SinkTop(g8);
    c := Down25(g8.a9);
  }

  lemma SinkTop(g: Limbs)
    ensures Val(g)
            == Val(Sink(g, 9)) + 0x8000000000000000000000000000000000000000000000000000000000000000 * Down25(g.a9)
  {
    hide Down25;
  }

  lemma SinkValue(g: Limbs, i: nat)
    requires i < 9
    ensures Val(Sink(g, i)) == Val(g)
  {
    hide Down26, Down25;
    match i {
      case 0 =>
      case 1 =>
      case 2 =>
      case 3 =>
      case 4 =>
      case 5 =>
      case 6 =>
      case 7 =>
      case _ =>
    }
  }

  lemma ProperRange(r: Limbs)
    requires Proper(r)
    ensures 0 <= Val(r) < 0x8000000000000000000000000000000000000000000000000000000000000000
  {}

  /** The reduced limbs hold the unique representative in [0, 2^255 - 19). */
  lemma ReducedIsCanonical(h: Limbs)
    requires Within(h, 73819750, 36909875)
    ensures Proper(Reduced(h))
        && 0 <= Val(Reduced(h)) < 0x7FFFFFFFFFFFFFFFFFFFFFFFFFFFFFFFFFFFFFFFFFFFFFFFFFFFFFFFFFFFFFED
    ensures Val(h) == Val(Reduced(h)) + 0x7FFFFFFFFFFFFFFFFFFFFFFFFFFFFFFFFFFFFFFFFFFFFFFFFFFFFFFFFFFFFFED
        * Climb(h, 10)
  {
    hide Climb, Sink, Sunk, Val, Proper, Within;
    QuotientExact(h);
    var q := Climb(h, 10);
    var g := h.(a0 := h.a0 + 19 * q);
    BottomAdd(h, 19 * q);
    var c := SinkAll(g);
    ProperRange(Reduced(h));
    SameQuotient(Val(h), Val(Reduced(h)), q, c);
  }

  lemma BottomAdd(h: Limbs, x: int)
    ensures Val(h.(a0 := h.a0 + x)) == Val(h) + x
  {}

  lemma SameQuotient(v: int, r: int, q: int, c: int)
    requires 0 <= v - 0x7FFFFFFFFFFFFFFFFFFFFFFFFFFFFFFFFFFFFFFFFFFFFFFFFFFFFFFFFFFFFFED * q
            < 0x7FFFFFFFFFFFFFFFFFFFFFFFFFFFFFFFFFFFFFFFFFFFFFFFFFFFFFFFFFFFFFED
        && v + 19 * q == r + 0x8000000000000000000000000000000000000000000000000000000000000000 * c
        && 0 <= r < 0x8000000000000000000000000000000000000000000000000000000000000000
    ensures c == q && v == r + 0x7FFFFFFFFFFFFFFFFFFFFFFFFFFFFFFFFFFFFFFFFFFFFFFFFFFFFFFFFFFFFFED * q
  {}

  // ---------------------------------------------------------------- word sizes

  lemma SinkSmall(g: Limbs, i: nat, b: nat)
    requires i < 10 && Within(g, b, b) && 0x400_0000 <= b <= 100_000_000
    ensures Within(Sink(g, i), b + 4, b + 4)
  {
    hide Val;
  }

  lemma {:induction false} SunkSmall(g: Limbs, k: nat)
    requires k <= 10 && Within(g, 75_000_000, 75_000_000)
    ensures Within(Sunk(g, k), 75_000_000 + 4 * k, 75_000_000 + 4 * k)
  {
    hide Sink, Within;
    if k > 0 {
      SunkSmall(g, k - 1);
      SinkSmall(Sunk(g, k - 1), k - 1, 75_000_000 + 4 * (k - 1));
    }
  }

  lemma {:induction false} ClimbSmall(h: Limbs, n: nat)
    requires n <= 10 && Within(h, 73819750, 36909875)
    ensures Lim(Climb(h, n), 24) && (n > 0 ==> Lim(At(h, n - 1) + Climb(h, n - 1), 75_000_000))
  {
    if n > 0 { ClimbSmall(h, n - 1); }
  }

  predicate Rung32(h: Limbs, n: nat)
    requires n < 10
  {
    Fits32(At(h, n) + Climb(h, n))
  }

  ghost predicate Carries32(g: Limbs) { forall k | 0 <= k <= 10 :: Within(Sunk(g, k), 0x7FFF_FFFF, 0x7FFF_FFFF) }

  /** Every value on the way to the reduced limbs fits a signed 32-bit word. */
  ghost predicate Narrow(h: Limbs) {
    && Fits32(19 * h.a9 + 0x100_0000)
    && (forall n: nat | n < 10 :: Rung32(h, n))
    && Fits32(19 * Climb(h, 10)) && Fits32(h.a0 + 19 * Climb(h, 10))
    && Carries32(h.(a0 := h.a0 + 19 * Climb(h, 10)))
  }

  lemma StaysNarrow(h: Limbs)
    requires Within(h, 73819750, 36909875)
    ensures Narrow(h)
  {
    hide Climb, Sunk;
    forall n: nat | n < 10 ensures Rung32(h, n) { ClimbSmall(h, n + 1); }
    ClimbSmall(h, 10);
    var g := h.(a0 := h.a0 + 19 * Climb(h, 10));
    forall k | 0 <= k <= 10 ensures Within(Sunk(g, k), 0x7FFF_FFFF, 0x7FFF_FFFF) { SunkSmall(g, k); }
  }

  // ---------------------------------------------------------------- bytes

  /** A limb cut into its low bits, two whole bytes and what is left above. */
  datatype Cut = Cut(low: nat, m1: Byte, m2: Byte, high: nat)

  function CutAt(h: nat, d: nat): Cut
    requires d > 0
  {
    var x := h / d;
    Cut(h % d, x % 256, x / 256 % 256, x / 65536)
  }

  lemma CutBack(h: nat, d: nat)
    requires d > 0
    ensures var c := CutAt(h, d); c.low < d && h == c.low + d * (c.m1 + 256 * (c.m2 + 256 * c.high))
  {
    var x := h / d;
    assert x == x % 256 + 256 * (x / 256 % 256 + 256 * (x / 65536));
    assert h == h % d + d * x;
  }

  /** How limb i is cut: its low bits fill up the byte the limb below began. */
  function Piece(h: Limbs, i: nat): Cut
    requires Proper(h) && i < 10
  {
    match i
    case 0 => CutAt(h.a0, 256)
    case 1 => CutAt(h.a1, 64)
    case 2 => CutAt(h.a2, 32)
    case 3 => CutAt(h.a3, 8)
    case 4 => CutAt(h.a4, 4)
    case 5 => CutAt(h.a5, 256)
    case 6 => CutAt(h.a6, 128)
    case 7 => CutAt(h.a7, 32)
    case 8 => CutAt(h.a8, 16)
    case _ => CutAt(h.a9, 4)
  }

  /** Every limb is its pieces, and the part above two whole bytes is short enough for the next byte. */
  lemma Pieces(h: Limbs)
    requires Proper(h)
    ensures var c := Piece(h, 0);
        c.low < 256 && c.high < 4 && h.a0 == c.low + 256 * (c.m1 + 256 * (c.m2 + 256 * c.high))
    ensures var c := Piece(h, 1); c.low < 64 && c.high < 8 && h.a1 == c.low + 64 * (c.m1 + 256 * (c.m2 + 256 * c.high))
    ensures var c := Piece(h, 2); c.low < 32 && c.high < 32 && h.a2 == c.low + 32 * (c.m1 + 256 * (c.m2 + 256 * c.high))
    ensures var c := Piece(h, 3); c.low < 8 && c.high < 64 && h.a3 == c.low + 8 * (c.m1 + 256 * (c.m2 + 256 * c.high))
    ensures var c := Piece(h, 4); c.low < 4 && c.high < 256 && h.a4 == c.low + 4 * (c.m1 + 256 * (c.m2 + 256 * c.high))
    ensures var c := Piece(h, 5);
        c.low < 256 && c.high < 2 && h.a5 == c.low + 256 * (c.m1 + 256 * (c.m2 + 256 * c.high))
    ensures var c := Piece(h, 6);
        c.low < 128 && c.high < 8 && h.a6 == c.low + 128 * (c.m1 + 256 * (c.m2 + 256 * c.high))
    ensures var c := Piece(h, 7); c.low < 32 && c.high < 16 && h.a7 == c.low + 32 * (c.m1 + 256 * (c.m2 + 256 * c.high))
    ensures var c := Piece(h, 8); c.low < 16 && c.high < 64 && h.a8 == c.low + 16 * (c.m1 + 256 * (c.m2 + 256 * c.high))
    ensures var c := Piece(h, 9); c.low < 4 && c.high < 128 && h.a9 == c.low + 4 * (c.m1 + 256 * (c.m2 + 256 * c.high))
  {
    hide CutAt;
    CutBack(h.a0, 256);
    CutBack(h.a1, 64);
    CutBack(h.a2, 32);
    CutBack(h.a3, 8);
    CutBack(h.a4, 4);
    CutBack(h.a5, 256);
    CutBack(h.a6, 128);
    CutBack(h.a7, 32);
    CutBack(h.a8, 16);
    CutBack(h.a9, 4);
  }

  /** The 32 bytes; where a byte spans two limbs the shifted parts do not overlap. */
  function Packed(h: Limbs): (s: seq<Byte>)
    requires Proper(h)
    ensures |s| == 32
  {
    Pieces(h);
    var c0 := Piece(h, 0);
    var c1 := Piece(h, 1);
    var c2 := Piece(h, 2);
    var c3 := Piece(h, 3);
    var c4 := Piece(h, 4);
    var c5 := Piece(h, 5);
    var c6 := Piece(h, 6);
    var c7 := Piece(h, 7);
    var c8 := Piece(h, 8);
    var c9 := Piece(h, 9);
    [ c0.low, c0.m1, c0.m2, c0.high + 4 * c1.low,
      c1.m1, c1.m2, c1.high + 8 * c2.low,
      c2.m1, c2.m2, c2.high + 32 * c3.low,
      c3.m1, c3.m2, c3.high + 64 * c4.low,
      c4.m1, c4.m2, c4.high,
      c5.low, c5.m1, c5.m2, c5.high + 2 * c6.low,
      c6.m1, c6.m2, c6.high + 8 * c7.low,
      c7.m1, c7.m2, c7.high + 16 * c8.low,
      c8.m1, c8.m2, c8.high + 64 * c9.low,
      c9.m1, c9.m2, c9.high ]
  }

  lemma Three(b: seq<Byte>, i: nat)
    requires i + 3 <= |b|
    ensures NumFrom(b, i) == b[i] + 256 * (b[i + 1] + 256 * (b[i + 2] + 256 * NumFrom(b, i + 3)))
  {
    assert NumFrom(b, i + 1) == b[i + 1] + 256 * NumFrom(b, i + 2);
    assert NumFrom(b, i + 2) == b[i + 2] + 256 * NumFrom(b, i + 3);
  }

  /** The upper half: limbs 5 to 9. */
  lemma UpperValue(h: Limbs)
    requires Proper(h)
    ensures NumFrom(Packed(h), 16) == h.a5 + 0x200_0000 * (h.a6
        + 0x400_0000 * (h.a7 + 0x200_0000 * (h.a8 + 0x400_0000 * h.a9)))
  {
    hide Piece;
    Pieces(h);
    var b := Packed(h);
    assert NumFrom(b, 31) == b[31] + 256 * NumFrom(b, 32);
    Three(b, 28);
    Three(b, 25);
    Three(b, 22);
    Three(b, 19);
    Three(b, 16);
    hide Packed, NumFrom;
    assert NumFrom(b, 28) == Piece(h, 8).high + 64 * h.a9;
    assert NumFrom(b, 25) == Piece(h, 7).high + 16 * (h.a8 + 0x400_0000 * h.a9);
    assert NumFrom(b, 22) == Piece(h, 6).high + 8 * (h.a7 + 0x200_0000 * (h.a8 + 0x400_0000 * h.a9));
    assert NumFrom(b, 19) == Piece(h, 5).high + 2 * (h.a6
        + 0x400_0000 * (h.a7 + 0x200_0000 * (h.a8 + 0x400_0000 * h.a9)));
  }

  lemma MiddleValue(h: Limbs)
    requires Proper(h)
    ensures NumFrom(Packed(h), 9) == Piece(h, 2).high
        + 32 * (h.a3 + 0x200_0000 * (h.a4 + 0x400_0000 * NumFrom(Packed(h), 16)))
  {
    hide Piece;
    Pieces(h);
    var b := Packed(h);
    assert NumFrom(b, 15) == b[15] + 256 * NumFrom(b, 16);
    Three(b, 12);
    Three(b, 9);
    hide Packed, NumFrom;
    var u := NumFrom(b, 16);
    assert NumFrom(b, 12) == Piece(h, 3).high + 64 * (h.a4 + 0x400_0000 * u);
  }

  /** The lower half: limbs 0 to 4 below the upper half. */
  lemma LowerValue(h: Limbs)
    requires Proper(h)
    ensures NumFrom(Packed(h), 0) ==
            h.a0 + 0x400_0000 * (h.a1 + 0x200_0000 * (h.a2
                + 0x400_0000 * (h.a3 + 0x200_0000 * (h.a4 + 0x400_0000 * NumFrom(Packed(h), 16)))))
  {
    hide Piece, NumFrom;
    Pieces(h);
    MiddleValue(h);
    var b := Packed(h);
    Three(b, 6);
    Three(b, 3);
    Three(b, 0);
    hide Packed;
    var v := h.a3 + 0x200_0000 * (h.a4 + 0x400_0000 * NumFrom(b, 16));
    assert NumFrom(b, 6) == Piece(h, 1).high + 8 * (h.a2 + 0x400_0000 * v);
    assert NumFrom(b, 3) == Piece(h, 0).high + 4 * (h.a1 + 0x200_0000 * (h.a2 + 0x400_0000 * v));
  }

  /** The bytes spell the value of the limbs. */
  lemma PackedValue(h: Limbs)
    requires Proper(h)
    ensures NumFrom(Packed(h), 0) == Val(h)
  {
    hide Packed, NumFrom;
    UpperValue(h);
    LowerValue(h);
  }

  /** fe_tobytes: the unique encoding of the residue, whatever limbs represent it. */
  method FeToBytes(s: array<Byte>, h: array<int>)
    requires s.Length == 32 && h.Length == 10
    requires Within(LimbsOf(h[..]), 73819750, 36909875)
    modifies s
    ensures NumFrom(s[..], 0) < P && Congruent(Val(LimbsOf(h[..])), NumFrom(s[..], 0))
    ensures Narrow(LimbsOf(h[..]))
  {
    hide Val, Packed, NumFrom, Climb, Reduced, Narrow;
    var a := LimbsOf(h[..]);
    StaysNarrow(a);
    ReducedIsCanonical(a);
    var r := Reduced(a);
    var b := Packed(r);
    PackedValue(r);
    forall i | 0 <= i < 32 { s[i] := b[i]; }
    assert s[..] == b;
    assert Val(a) == NumFrom(b, 0) + P * Climb(a, 10);
  }

  lemma {:induction false} NumInjective(s: seq<Byte>, t: seq<Byte>, i: nat)
    requires i <= |s| == |t| && NumFrom(s, i) == NumFrom(t, i)
    ensures s[i..] == t[i..]
    decreases |s| - i
  {
    if i < |s| {
      LowByte(s[i], NumFrom(s, i + 1), t[i], NumFrom(t, i + 1));
      NumInjective(s, t, i + 1);
      assert s[i..] == [s[i]] + s[i + 1..] && t[i..] == [t[i]] + t[i + 1..];
    }
  }

  lemma LowByte(a: Byte, m: nat, b: Byte, n: nat)
    requires a + 256 * m == b + 256 * n
    ensures a == b && m == n
  {}

  /** Congruent field elements have one encoding below the modulus: the same bytes. */
  lemma OneEncoding(x: int, y: int, s: seq<Byte>, t: seq<Byte>)
    requires |s| == |t| && Congruent(x, y) && Congruent(x, NumFrom(s, 0)) && Congruent(y, NumFrom(t, 0))
    requires NumFrom(s, 0) < P && NumFrom(t, 0) < P
    ensures s == t
  {
    hide NumFrom;
    var a, b := NumFrom(s, 0), NumFrom(t, 0);
    var i :| x == y + P * i;
    var j :| x == a + P * j;
    var k :| y == b + P * k;
    assert a - b == P * (k + i - j);
    Only(a, b, k + i - j);
    NumInjective(s, t, 0);
    assert s[0..] == s && t[0..] == t;
  }

  lemma Only(a: int, b: int, n: int)
    requires 0 <= a < P && 0 <= b < P && a - b == P * n
    ensures n == 0
  {}
}
