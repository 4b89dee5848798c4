/**
 Signed-digit recodings of a scalar (kernel/sfs_ed25519.c:1504-1537 and 1865-1890,
 used for sections 5.1.6 and 5.1.7 of RFC 8032): the digits change, the number does
 not.
 */
module Recode {
  import opened Base

  // ---------------------------------------------------------------- radix 16

  /** Value of the signed digits from i on, in the given radix. */
  function Digits(e: seq<int>, i: nat, radix: nat): int
    requires i <= |e|
    decreases |e| - i
  {
    if i == |e| then 0 else e[i] + radix * Digits(e, i + 1, radix)
  }

  lemma {:induction false} NibbleValue(a: seq<Byte>, e: seq<int>, i: nat)
    requires |e| == 2 * |a| && i <= |a|
    requires forall j | 0 <= j < |a| :: e[2 * j] + 16 * e[2 * j + 1] == a[j]
    ensures Digits(e, 2 * i, 16) == NumFrom(a, i)
    decreases |a| - i
  {
    if i < |a| {
      NibbleValue(a, e, i + 1);
      assert Digits(e, 2 * i, 16) == e[2 * i] + 16 * Digits(e, 2 * i + 1, 16);
      assert Digits(e, 2 * i + 1, 16) == e[2 * i + 1] + 16 * Digits(e, 2 * (i + 1), 16);
    }
  }

  /** Changing digits below i only matters through the value they had. */
  lemma {:induction false} SameTail(d: seq<int>, e: seq<int>, i: nat, radix: nat)
    requires |d| == |e| && i <= |d| && forall j | i <= j < |d| :: d[j] == e[j]
    ensures Digits(d, i, radix) == Digits(e, i, radix)
    decreases |d| - i
  {
    if i < |d| { SameTail(d, e, i + 1, radix); }
  }

  lemma {:induction false} SameHead(d: seq<int>, e: seq<int>, i: nat, k: nat, radix: nat)
    requires |d| == |e| && k <= i <= |d| && (forall j | 0 <= j < i :: d[j] == e[j])
        && Digits(d, i, radix) == Digits(e, i, radix)
    ensures Digits(d, k, radix) == Digits(e, k, radix)
    decreases i - k
  {
    if k < i { SameHead(d, e, i, k + 1, radix); }
  }

  /** Moving a multiple of 16 from digit i to the next keeps the number. */
  lemma PushUp(e: seq<int>, i: nat, c: int)
    requires i + 1 < |e|
    ensures Digits(e[i := e[i] - 16 * c][i + 1 := e[i + 1] + c], 0, 16) == Digits(e, 0, 16)
  {
    var d := e[i := e[i] - 16 * c][i + 1 := e[i + 1] + c];
    SameTail(d, e, i + 2, 16);
    assert Digits(d, i, 16) == d[i] + 16 * Digits(d, i + 1, 16)
        && Digits(d, i + 1, 16) == d[i + 1] + 16 * Digits(d, i + 2, 16);
    assert Digits(e, i, 16) == e[i] + 16 * Digits(e, i + 1, 16)
        && Digits(e, i + 1, 16) == e[i + 1] + 16 * Digits(e, i + 2, 16);
    SameHead(d, e, i, 0, 16);
  }

  /** Two digits per byte. */
  method Nibbles(d: array<int>, a: seq<Byte>)
    requires d.Length == 64 && |a| == 32
    modifies d
    ensures Digits(d[..], 0, 16) == NumFrom(a, 0) && d[63] == a[31] / 16 && forall k | 0 <= k < 64 :: 0 <= d[k] <= 15
  {
    hide Digits, NumFrom;
    for i := 0 to 32
      invariant forall j | 0 <= j < i :: d[2 * j] == a[j] % 16 && d[2 * j + 1] == a[j] / 16
    {
      d[2 * i], d[2 * i + 1] := a[i] % 16, a[i] / 16;
    }
    forall j | 0 <= j < 32 ensures d[2 * j] + 16 * d[2 * j + 1] == a[j] {}
    NibbleValue(a, d[..], 0);
    forall k | 0 <= k < 64 ensures 0 <= d[k] <= 15
        { Halves(k); assert d[k] == if k % 2 == 0 then a[k / 2] % 16 else a[k / 2] / 16; }
    assert d[2 * 31 + 1] == a[31] / 16;
  }

  /** The digits of ge_scalarmult_base: the scalar in radix 16 with digits in [-8, 8]. */
  method Radix16(d: array<int>, a: seq<Byte>)
    requires d.Length == 64 && |a| == 32
    modifies d
    ensures Digits(d[..], 0, 16) == NumFrom(a, 0)
    ensures (forall i | 0 <= i < 63 :: -8 <= d[i] <= 7) && 0 <= d[63] <= 16
    ensures a[31] <= 127 ==> d[63] <= 8
  {
    hide Digits, NumFrom;
    Nibbles(d, a);
    ghost var top := d[63];
    var carry := 0;
    assert d[..][0 := d[0] + carry] == d[..];
    for i := 0 to 63
      invariant 0 <= carry <= 1 && d[63] == top
      invariant forall k | 0 <= k < i :: -8 <= d[k] <= 7
      invariant forall k | i <= k < 64 :: 0 <= d[k] <= 15
      invariant Digits(d[..][i := d[i] + carry], 0, 16) == NumFrom(a, 0)
    {
      ghost var e0 := d[..][i := d[i] + carry];
      d[i] := d[i] + carry;
      carry := (d[i] + 8) / 16;
      PushUp(e0, i, carry);
      d[i] := d[i] - 16 * carry;
      assert d[..][i + 1 := d[i + 1] + carry] == e0[i := e0[i] - 16 * carry][i + 1 := e0[i + 1] + carry];
    }
    d[63] := d[63] + carry;
    assert d[..] == d[..][63 := d[63]];
  }

  lemma Halves(k: nat)
    ensures k == if k % 2 == 0 then 2 * (k / 2) else 2 * (k / 2) + 1
  {}

  // ---------------------------------------------------------------- sliding window

  /** x shifted left by b bits. */
  function Shl(x: int, b: nat): int { if b == 0 then x else 2 * Shl(x, b - 1) }

  lemma {:induction false} ShlAdd(x: int, y: int, b: nat)
    ensures Shl(x + y, b) == Shl(x, b) + Shl(y, b)
  {
    if b > 0 { ShlAdd(x, y, b - 1); }
  }

  lemma {:induction false} ShlStep(x: int, b: nat)
    ensures Shl(2 * x, b) == Shl(x, b + 1)
  {
    if b > 0 { ShlStep(x, b - 1); }
  }

  lemma ShlTable(x: int)
    ensures Shl(x, 1) == 2 * x && Shl(x, 2) == 4 * x && Shl(x, 3) == 8 * x && Shl(x, 4) == 16 * x && Shl(x, 5) == 32 * x
    ensures Shl(x, 6) == 64 * x && Shl(x, 7) == 128 * x
  {
    assert Shl(x, 1) == 2 * Shl(x, 0);
    assert Shl(x, 2) == 2 * Shl(x, 1);
    assert Shl(x, 3) == 2 * Shl(x, 2);
    assert Shl(x, 4) == 2 * Shl(x, 3);
    assert Shl(x, 5) == 2 * Shl(x, 4);
    assert Shl(x, 6) == 2 * Shl(x, 5);
  }

  lemma {:induction false} ShlMono(x: int, y: int, b: nat)
    requires x <= y
    ensures Shl(x, b) <= Shl(y, b)
  {
    if b > 0 { ShlMono(x, y, b - 1); }
  }

  /** Zeros between digit i and digit i + b. */
  ghost predicate Gap(r: seq<int>, i: nat, b: nat) { forall k | i < k < i + b && k < |r| :: r[k] == 0 }

  lemma {:induction false} GapValue(r: seq<int>, i: nat, b: nat)
    requires b > 0 && i + b <= |r| && Gap(r, i, b)
    ensures Digits(r, i, 2) == r[i] + Shl(Digits(r, i + b, 2), b)
    decreases b
  {
    if b > 1 {
      GapValue(r, i, b - 1);
      assert Digits(r, i + b - 1, 2) == 2 * Digits(r, i + b, 2);
      ShlStep(Digits(r, i + b, 2), b - 1);
    }
  }

  ghost predicate Bits(r: seq<int>, i: nat) { forall k | i <= k < |r| :: r[k] == 0 || r[k] == 1 }

  /** Largest number in bits i to n - 1. */
  function Ones(i: nat, n: nat): nat
    decreases n - i
  {
    if i >= n then 0 else 1 + 2 * Ones(i + 1, n)
  }

  lemma {:induction false} OnesValue(r: seq<int>, i: nat)
    requires i <= |r| && forall k | i <= k < |r| :: r[k] == 1
    ensures Digits(r, i, 2) == Ones(i, |r|)
    decreases |r| - i
  {
    if i < |r| { OnesValue(r, i + 1); }
  }

  lemma {:induction false} BitsBelow(r: seq<int>, i: nat, n: nat)
    requires i <= |r| && Bits(r, i) && n <= |r| && forall k | n <= k < |r| :: r[k] == 0
    ensures 0 <= Digits(r, i, 2) <= Ones(i, n)
    decreases |r| - i
  {
    if i < |r| { BitsBelow(r, i + 1, n); }
  }

  lemma {:induction false} OnesRatio(i: nat)
    requires i <= 253
    ensures Ones(i, 256) == 8 * Ones(i, 253) + 7
    decreases 253 - i
  {
    if i < 253 {
      OnesRatio(i + 1);
    } else {
      assert Ones(255, 256) == 1 && Ones(254, 256) == 3 && Ones(253, 256) == 7;
    }
  }

  /** Above any pending carry there is a zero bit to take it. */
  lemma RoomForCarry(bits: seq<int>, r: seq<int>, i: nat)
    requires |bits| == |r| == 256 && i <= 251 && Bits(bits, 0) && (forall k | 253 <= k < 256 :: bits[k] == 0)
    requires Digits(r, i, 2) <= Digits(bits, i, 2) + 1 && r[i] >= 1 && Gap(r, i, 4)
    ensures exists k :: i + 4 <= k < 256 && r[k] != 1
  {
    if forall k | i + 4 <= k < 256 :: r[k] == 1 {
      OnesValue(r, i + 4);
      GapValue(r, i, 4);
      var o := Ones(i + 4, 256);
      ShlTable(o);
      assert Ones(i, 256) == 15 + 16 * o by { assert Ones(i + 2, 256) == 3 + 4 * o; }
      BitsBelow(bits, i, 253);
      OnesRatio(i);
    }
  }

  /** Adding one at position j: clear the run of ones, set the first zero. */
  lemma {:induction false} CarryValue(r: seq<int>, j: nat, k: nat)
    requires j <= k < |r| && (forall l | j <= l < k :: r[l] == 1) && r[k] == 0
    ensures var s := seq(|r|, l requires 0 <= l < |r| => if j <= l < k then 0 else if l == k then 1 else r[l]);
            Digits(s, j, 2) == Digits(r, j, 2) + 1
    decreases k - j
  {
    var s := seq(|r|, l requires 0 <= l < |r| => if j <= l < k then 0 else if l == k then 1 else r[l]);
    if j == k {
      SameTail(s, r, k + 1, 2);
    } else {
      CarryValue(r, j + 1, k);
      var t := seq(|r|, l requires 0 <= l < |r| => if j + 1 <= l < k then 0 else if l == k then 1 else r[l]);
      SameTail(s, t, j + 1, 2);
    }
  }

  method RippleUp(r: array<int>, j: nat)
    requires j < r.Length && Bits(r[..], j) && exists k :: j <= k < r.Length && r[k] != 1
    modifies r
    ensures Digits(r[..], j, 2) == old(Digits(r[..], j, 2)) + 1
    ensures Bits(r[..], j) && (old(r[j]) == 1 ==> r[j] == 0) && forall l | 0 <= l < j :: r[l] == old(r[l])
  {
    ghost var s := r[..];
    var k := j;
    while r[k] != 0
      invariant j <= k < r.Length
      invariant forall l | j <= l < k :: r[l] == 0 && s[l] == 1
      invariant forall l | 0 <= l < r.Length && !(j <= l < k) :: r[l] == s[l]
      decreases r.Length - k
    {
      assert s[k] == 1;
      if k + 1 == r.Length {
        assert forall l | j <= l < r.Length :: s[l] == 1;
        assert false;
      }
      r[k] := 0;
      k := k + 1;
    }
    r[k] := 1;
    CarryValue(s, j, k);
    assert r[..] == seq(|s|, l requires 0 <= l < |s| => if j <= l < k then 0 else if l == k then 1 else s[l]);
  }

  // ---------------------------------------------------------------- one window

  lemma {:induction false} BitsSplit(bits: seq<int>, i: nat, b: nat) returns (low: int)
    requires i + b <= |bits| && Bits(bits, 0)
    ensures Digits(bits, i, 2) == low + Shl(Digits(bits, i + b, 2), b) && 0 <= low < Shl(1, b)
    decreases b
  {
    if b == 0 {
      low := 0;
    } else {
      var l := BitsSplit(bits, i + 1, b - 1);
      low := bits[i] + 2 * l;
    }
  }

  /** How far the digits from m on run ahead of the plain bits: nothing or one. */
  ghost predicate Ahead(bits: seq<int>, r: seq<int>, m: nat)
    requires |bits| == |r| && m <= |r|
  {
    0 <= Digits(r, m, 2) - Digits(bits, m, 2) <= 1
  }

  lemma AheadAfter(bits: seq<int>, r: seq<int>, i: nat, b: nat)
    requires |bits| == |r| && 0 < b && i + b <= |r| && Bits(bits, 0) && Gap(r, i, b)
    requires Ahead(bits, r, i) && -Shl(1, b) < r[i] < Shl(1, b)
    ensures Ahead(bits, r, i + b)
  {
    var low := BitsSplit(bits, i, b);
    GapValue(r, i, b);
    var u, a := Digits(r, i + b, 2), Digits(bits, i + b, 2);
    ShlAdd(u - a, a, b);
    ShlAdd(1, 1, b);
    if u - a <= -1 { ShlMono(u - a, -1, b); ShlAdd(-1, 1, b); ShlZero(b); } else if u - a >= 2 { ShlMono(2, u - a, b); }
  }

  lemma {:induction false} ShlZero(b: nat)
    ensures Shl(0, b) == 0
  {
    if b > 0 { ShlZero(b - 1); }
  }

  predicate Odd(x: int) { x % 2 == 1 }

  /** What one more look-ahead bit does to the number: nothing. */
  lemma AddKeeps(r: seq<int>, s: seq<int>, i: nat, b: nat, c: int)
    requires |s| == |r| && 0 < b && i + b < |r| && Gap(r, i, b) && Gap(s, i, b)
    requires s[i] == r[i] + Shl(c, b) && Digits(s, i + b, 2) == Digits(r, i + b, 2) - c
    ensures Digits(s, i, 2) == Digits(r, i, 2)
  {
    GapValue(r, i, b);
    GapValue(s, i, b);
    ShlAdd(Digits(s, i + b, 2), c, b);
  }

  /** Collects up to six bits above digit i into it. */
  method Window(r: array<int>, i: nat, ghost bits: seq<int>) returns (ghost m: nat)
    requires r.Length == 256 == |bits| && i < 256 && r[i] == 1 && Bits(r[..], i) && Bits(bits, 0)
        && Ahead(bits, r[..], i)
    requires forall k | 253 <= k < 256 :: bits[k] == 0
    modifies r
    ensures i < m <= 256 && (forall k | i < k < m :: r[k] == 0) && Bits(r[..], m) && Ahead(bits, r[..], m)
    ensures Odd(r[i]) && -15 <= r[i] <= 15 && Digits(r[..], i, 2) == old(Digits(r[..], i, 2))
    ensures forall k | 0 <= k < i :: r[k] == old(r[k])
  {
    hide Digits, Shl;
    ShlTable(1);
    var b := 1;
    ghost var c := Digits(r[..], i, 2);
    while b <= 6 && i + b < 256
      invariant 1 <= b <= 7 && i + b <= 256 && Gap(r[..], i, b) && Bits(r[..], i + b) && Digits(r[..], i, 2) == c
      invariant Odd(r[i]) && -15 <= r[i] <= 15 && (b <= 4 ==> 1 <= r[i] < Shl(1, b))
      invariant forall k | 0 <= k < i :: r[k] == old(r[k])
    {
      ghost var s := r[..];
      if r[i + b] != 0 {
        var x := Shl(1, b);
        assert x == [1, 2, 4, 8, 16, 32, 64][b];
        if r[i] + x <= 15 {
          r[i], r[i + b] := r[i] + x, 0;
          DropBit(s, r[..], i + b);
          AddKeeps(s, r[..], i, b, 1);
        } else if r[i] - x >= -15 {
          assert b == 4;
          RoomForCarry(bits, s, i);
          r[i] := r[i] - x;
          SameTail(s, r[..], i + b, 2);
          RippleUp(r, i + b);
          ShlNeg(b);
          AddKeeps(s, r[..], i, b, -1);
        } else {
          break;
        }
      }
      b := b + 1;
    }
    m := i + b;
    AheadAfter(bits, r[..], i, b);
  }

  lemma ShlNeg(b: nat)
    ensures Shl(-1, b) == -Shl(1, b)
  {
    ShlAdd(-1, 1, b);
    ShlZero(b);
  }

  lemma DropBit(s: seq<int>, r: seq<int>, j: nat)
    requires |s| == |r| && j < |s| && s[j] == 1 && r[j] == 0 && forall k | j < k < |s| :: r[k] == s[k]
    ensures Digits(r, j, 2) == Digits(s, j, 2) - 1
  {
    SameTail(r, s, j + 1, 2);
  }

  // ---------------------------------------------------------------- the whole recoding

  /** Bit t of a byte. */
  function BitOf(x: nat, t: nat): int { if t == 0 then x % 2 else BitOf(x / 2, t - 1) }

  /** Digit u of the byte at `at` is bit u - t of x. */
  ghost predicate IsBit(r: seq<int>, at: nat, u: nat, x: nat, t: nat)
    requires t <= u && at + u < |r|
  {
    r[at + u] == BitOf(x, u - t)
  }

  /** The bits of x from t on, taken out of a byte. */
  lemma {:induction false} ByteBits(x: nat, r: seq<int>, at: nat, t: nat)
    requires t <= 8 && at + 8 <= |r| && (forall u | t <= u < 8 :: IsBit(r, at, u, x, t)) && x < Ones(t, 8) + 1
    ensures Digits(r, at + t, 2) == x + Shl(Digits(r, at + 8, 2), 8 - t)
    decreases 8 - t
  {
    if t < 8 {
      var y, t1 := x / 2, t + 1;
      forall u | t1 <= u < 8 ensures IsBit(r, at, u, y, t1) { assert IsBit(r, at, u, x, t); }
      assert IsBit(r, at, t, x, t);
      assert x / 2 < Ones(t + 1, 8) + 1;
      ByteBits(x / 2, r, at, t + 1);
    }
  }

  lemma {:induction false} BitsValue(a: seq<Byte>, r: seq<int>, i: nat)
    requires |r| == 8 * |a| && i <= |a| && forall j, u | 0 <= j < |a| && 0 <= u < 8 :: r[8 * j + u] == BitOf(a[j], u)
    ensures Digits(r, 8 * i, 2) == NumFrom(a, i)
    decreases |a| - i
  {
    if i < |a| {
      BitsValue(a, r, i + 1);
      assert Ones(0, 8) == 255 by { assert Ones(6, 8) == 3; assert Ones(4, 8) == 15; assert Ones(2, 8) == 63; }
      forall u | 0 <= u < 8 ensures IsBit(r, 8 * i, u, a[i], 0) { assert r[8 * i + u] == BitOf(a[i], u); }
      ByteBits(a[i], r, 8 * i, 0);
      var x := Digits(r, 8 * i + 8, 2);
      ShlTable(x);
      assert Shl(x, 8) == 2 * Shl(x, 7);
    }
  }

  lemma TopBits(x: nat, u: nat)
    requires x < 32 && 5 <= u < 8
    ensures BitOf(x, u) == 0
  {
    var y := x / 2 / 2 / 2 / 2 / 2;
    assert y == 0;
    assert BitOf(x, u) == BitOf(x / 2, u - 1) == BitOf(x / 2 / 2, u - 2) == BitOf(x / 2 / 2 / 2, u - 3);
    assert BitOf(x / 2 / 2 / 2, u - 3) == BitOf(x / 2 / 2 / 2 / 2, u - 4) == BitOf(y, u - 5);
    ZeroBits(u - 5);
  }

  lemma {:induction false} ZeroBits(t: nat)
    ensures BitOf(0, t) == 0
  {
    if t > 0 { ZeroBits(t - 1); }
  }

  lemma {:induction false} BitRange(x: nat, t: nat)
    ensures BitOf(x, t) == 0 || BitOf(x, t) == 1
  {
    if t > 0 { BitRange(x / 2, t - 1); }
  }

  /** The 256 bits of the scalar. */
  method Expand(r: array<int>, a: seq<Byte>)
    requires r.Length == 256 && |a| == 32 && a[31] < 32
    modifies r
    ensures Bits(r[..], 0) && Digits(r[..], 0, 2) == NumFrom(a, 0) && forall k | 253 <= k < 256 :: r[k] == 0
  {
    hide Digits;
    for i := 0 to 256
      invariant forall k | 0 <= k < i :: r[k] == BitOf(a[k / 8], k % 8)
    {
      r[i] := BitOf(a[i / 8], i % 8);
    }
    forall k | 0 <= k < 256 ensures r[k] == 0 || r[k] == 1 { BitRange(a[k / 8], k % 8); }
    forall j, u | 0 <= j < 32 && 0 <= u < 8 ensures r[8 * j + u] == BitOf(a[j], u)
        { assert (8 * j + u) / 8 == j && (8 * j + u) % 8 == u; }
    BitsValue(a, r[..], 0);
    forall k | 253 <= k < 256 ensures r[k] == 0 { TopBits(a[31], k - 248); }
  }

  lemma AheadStep(bits: seq<int>, r: seq<int>, i: nat)
    requires |bits| == |r| && i < |r| && Bits(bits, 0) && Ahead(bits, r, i) && r[i] == 0
    ensures Ahead(bits, r, i + 1)
  {}

  /**
   slide: digits zero or odd in [-15, 15] with the same sum, for every scalar below 2^253; no carry runs off
   the end.
   */
  method Slide(r: array<int>, a: seq<Byte>)
    requires r.Length == 256 && |a| == 32 && a[31] < 32
    modifies r
    ensures Digits(r[..], 0, 2) == NumFrom(a, 0)
    ensures forall k | 0 <= k < 256 :: r[k] == 0 || (Odd(r[k]) && -15 <= r[k] <= 15)
  {
    hide Digits, NumFrom;
    Expand(r, a);
    ghost var bits := r[..];
    ghost var m := 0;
    var i := 0;
    while i < 256
      invariant 0 <= i <= m <= 256 && (forall k | i <= k < m :: r[k] == 0) && Bits(r[..], m)
      invariant forall k | 0 <= k < i :: r[k] == 0 || (Odd(r[k]) && -15 <= r[k] <= 15)
      invariant Ahead(bits, r[..], m) && Digits(r[..], 0, 2) == Digits(bits, 0, 2)
    {
      ghost var s := r[..];
      if r[i] != 0 {
        m := Window(r, i, bits);
        SameHead(r[..], s, i, 0, 2);
      } else if m == i {
        AheadStep(bits, r[..], i);
        m := i + 1;
      }
      i := i + 1;
    }
  }
}
