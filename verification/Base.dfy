/** Shared vocabulary: bytes, byte strings in raw lexicographic order and as little-endian numbers, options. */
module Base {

  datatype Option<+T> = None | Some(value: T)

  type Byte = x: int | 0 <= x < 256

  /** Strict raw-byte order: common prefix first, then shorter-first. */
  predicate LexLess(a: seq<Byte>, b: seq<Byte>) {
    b != [] && (a == [] || a[0] < b[0] || (a[0] == b[0] && LexLess(a[1..], b[1..])))
  }

  /** The first differing position (or the end of the shorter string) decides. */
  lemma {:induction false} LexAt(a: seq<Byte>, b: seq<Byte>, k: nat)
    requires k <= |a| && k < |b| && a[..k] == b[..k]
    requires k == |a| || a[k] < b[k]
    ensures LexLess(a, b)
  {
    if k > 0 {
      assert a[0] == a[..k][0] == b[..k][0] == b[0];
      assert a[1..][..k - 1] == a[..k][1..] == b[..k][1..] == b[1..][..k - 1];
      LexAt(a[1..], b[1..], k - 1);
    }
  }

  lemma {:induction false} LexIrreflexive(a: seq<Byte>)
    ensures !LexLess(a, a)
  {
    if a != [] { LexIrreflexive(a[1..]); }
  }

  lemma {:induction false} LexTransitive(a: seq<Byte>, b: seq<Byte>, c: seq<Byte>)
    requires LexLess(a, b) && LexLess(b, c)
    ensures LexLess(a, c)
  {
    if a != [] && a[0] == b[0] && b[0] == c[0] { LexTransitive(a[1..], b[1..], c[1..]); }
  }

  lemma {:induction false} LexTotal(a: seq<Byte>, b: seq<Byte>)
    ensures a == b || LexLess(a, b) || LexLess(b, a)
  {
    if a != [] && b != [] && a[0] == b[0] {
      LexTotal(a[1..], b[1..]);
      assert a == [a[0]] + a[1..] && b == [b[0]] + b[1..];
    }
  }

  /** Little-endian value of the bytes from i on. */
  function NumFrom(b: seq<Byte>, i: nat): nat
    requires i <= |b|
    decreases |b| - i
  {
    if i == |b| then 0 else b[i] + 256 * NumFrom(b, i + 1)
  }

  lemma {:induction false} NumSuffix(b: seq<Byte>, i: nat)
    requires i <= |b|
    ensures NumFrom(b, i) == NumFrom(b[i..], 0)
    decreases |b| - i
  {
    if i < |b| {
      NumSuffix(b, i + 1);
      NumSuffix(b[i..], 1);
      assert b[i..][1..] == b[i + 1..];
    }
  }
}
