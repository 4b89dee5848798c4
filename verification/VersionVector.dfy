/** Per-writer counters of a content stream and the causal dots drawn from them (kernel/sfs_cow.c:433-483). */
module VersionVector {

  type U16 = x: int | 0 <= x < 0x1_0000
  type U64 = x: int | 0 <= x < 0x1_0000_0000_0000_0000

  datatype Entry = Entry(alias: U16, count: U64)

  type Vector = seq<Entry>

  /** Aliases ascend and no zero counter is stored. */
  ghost predicate Wf(v: Vector) {
    && (forall i, j | 0 <= i < j < |v| :: v[i].alias < v[j].alias)
    && (forall i | 0 <= i < |v| :: v[i].count > 0)
  }

  function Counter(v: Vector, a: U16): U64 {
    if v == [] then 0 else if v[0].alias == a then v[0].count else Counter(v[1..], a)
  }

  lemma {:induction false} CounterAt(v: Vector, a: U16, i: nat)
    requires Wf(v) && i <= |v| && (forall j | 0 <= j < i :: v[j].alias < a)
    ensures i < |v| && v[i].alias == a ==> Counter(v, a) == v[i].count
    ensures i == |v| || v[i].alias > a ==> Counter(v, a) == 0
  {
    if v != [] {
      if i > 0 {
        assert forall j | 0 <= j < i - 1 :: v[1..][j].alias == v[j + 1].alias;
        CounterAt(v[1..], a, i - 1);
      } else if v[0].alias > a {
        NoCounter(v, a);
      }
    }
  }

  lemma {:induction false} NoCounter(v: Vector, a: U16)
    requires forall j | 0 <= j < |v| :: v[j].alias > a
    ensures Counter(v, a) == 0
  {
    if v != [] { NoCounter(v[1..], a); }
  }

  /** Counters of the entries of a vector, wherever one entry is replaced or put in. */
  lemma {:induction false} CounterSplice(l: Vector, m: Vector, r: Vector, a: U16)
    ensures Counter(l + m + r, a) == if Has(l, a) then
        Counter(l, a) else if Has(m, a) then Counter(m, a) else Counter(r, a)
    decreases |l| + |m|
  {
    if l != [] {
      CounterSplice(l[1..], m, r, a);
      assert (l + m + r)[1..] == l[1..] + m + r;
      assert Has(l, a) <==> l[0].alias == a || Has(l[1..], a) by {
        if Has(l, a) { var i :| 0 <= i < |l| && l[i].alias == a; if i > 0 { assert l[1..][i - 1].alias == a; } }
      }
    } else if m != [] {
      CounterSplice([], m[1..], r, a);
      assert l + m + r == m + r && (m + r)[1..] == [] + m[1..] + r;
      assert Has(m, a) <==> m[0].alias == a || Has(m[1..], a) by {
        if Has(m, a) { var i :| 0 <= i < |m| && m[i].alias == a; if i > 0 { assert m[1..][i - 1].alias == a; } }
      }
    } else {
      assert l + m + r == r;
    }
  }

  ghost predicate Has(v: Vector, a: U16) { exists i :: 0 <= i < |v| && v[i].alias == a }

  const WRAP := 0x1_0000_0000_0000_0000

  /** Bumps the writer's counter, inserting it in order if absent; the 64-bit counter wraps. */
  method Bump(v: Vector, a: U16) returns (r: Vector, sync: U64)
    requires Wf(v)
    ensures sync == (Counter(v, a) + 1) % WRAP == Counter(r, a)
    ensures forall b: U16 | b != a :: Counter(r, b) == Counter(v, b)
    ensures sync > 0 ==> Wf(r)
    ensures |r| == |v| || |r| == |v| + 1
  {
    hide Counter, Has;
    var pos, found, i := |v|, false, 0;
    sync := 1;
    while i < |v|
      invariant 0 <= i <= |v| && !found && pos == |v| && sync == 1 && forall j | 0 <= j < i :: v[j].alias < a
    {
      if v[i].alias == a {
        sync, found, pos := (v[i].count + 1) % WRAP, true, i;
        break;
      }
      if v[i].alias > a { pos := i; break; }
      i := i + 1;
    }
    CounterAt(v, a, pos);
    r := if found then v[pos := Entry(a, sync)] else v[..pos] + [Entry(a, sync)] + v[pos..];
    forall b: U16 ensures Counter(r, b) == if b == a then sync else Counter(v, b)
        { Spliced(v, a, pos, found, sync, b); }
  }

  lemma Spliced(v: Vector, a: U16, pos: nat, found: bool, sync: U64, b: U16)
    requires pos <= |v| && (found ==> pos < |v| && v[pos].alias == a) && forall j | 0 <= j < pos :: v[j].alias < a
    ensures var r := if found then v[pos := Entry(a, sync)] else v[..pos] + [Entry(a, sync)] + v[pos..];
            Counter(r, b) == if b == a then sync else Counter(v, b)
  {
    hide Counter;
    var m, mid := [Entry(a, sync)], if found then [v[pos]] else [];
    var tail := if found then v[pos + 1..] else v[pos..];
    assert (if found then v[pos := Entry(a, sync)] else v[..pos] + [Entry(a, sync)] + v[pos..]) == v[..pos] + m + tail;
    assert v == v[..pos] + mid + tail;
    CounterSplice(v[..pos], m, tail, b);
    CounterSplice(v[..pos], mid, tail, b);
    assert Has(m, b) <==> b == a by { assert m[0].alias == a; }
    CounterOne(a, sync);
  }

  lemma CounterOne(a: U16, sync: U64)
    ensures Counter([Entry(a, sync)], a) == sync
  {}

  /** The version a fragment is sealed under: counter above, writer below. */
  function Dot(sync: U64, a: U16): U64 { (sync * 0x1_0000 + a) % 0x1_0000_0000_0000_0000 }

  /** Only the low 48 bits of the counter reach the dot. */
  lemma DotLow(s: U64, a: U16)
    ensures Dot(s, a) == (s % 0x1_0000_0000_0000) * 0x1_0000 + a
  {
    var q, r := s / 0x1_0000_0000_0000, s % 0x1_0000_0000_0000;
    assert s * 0x1_0000 + a == q * 0x1_0000_0000_0000_0000 + (r * 0x1_0000 + a);
  }

  /** Two dots are equal exactly when the writers are and the counters agree modulo 2^48. */
  lemma DotEqualIff(s: U64, a: U16, t: U64, b: U16)
    ensures Dot(s, a) == Dot(t, b) <==> a == b && s % 0x1_0000_0000_0000 == t % 0x1_0000_0000_0000
  {
    hide Dot;
    DotLow(s, a);
    DotLow(t, b);
  }

  /** One commit of a chain: the writer's counter goes up by one, all others stay. */
  ghost predicate Succeeds(v: Vector, a: U16, v': Vector) {
    Counter(v', a) == Counter(v, a) + 1 && forall b: U16 | b != a :: Counter(v', b) == Counter(v, b)
  }

  ghost predicate Chain(vs: seq<Vector>, writers: seq<U16>) {
    |vs| == |writers| + 1 && forall i, j | 0 <= i < |writers| && j == i + 1 :: Succeeds(vs[i], writers[i], vs[j])
  }

  lemma {:induction false} Monotone(vs: seq<Vector>, writers: seq<U16>, i: nat, j: nat, a: U16)
    requires Chain(vs, writers) && i <= j < |vs|
    ensures Counter(vs[i], a) <= Counter(vs[j], a)
    decreases j
  {
    if i < j {
      Monotone(vs, writers, i, j - 1, a);
      assert Succeeds(vs[j - 1], writers[j - 1], vs[j]);
    }
  }

  /**
   Two commits of a chain seal under the same dot exactly when one writer made both, a multiple of 2^48 commits
   apart.
   */
  lemma DotsRepeatIff(vs: seq<Vector>, writers: seq<U16>, i: nat, j: nat)
    requires Chain(vs, writers) && i < j < |writers|
    ensures var a, b := writers[i], writers[j];
            var s, t := Counter(vs[i + 1], a), Counter(vs[j + 1], b);
            Dot(s, a) == Dot(t, b) <==> a == b && t > s && (t - s) % 0x1_0000_0000_0000 == 0
  {
    hide Dot, Counter;
    var a, b := writers[i], writers[j];
    Monotone(vs, writers, i + 1, j, a);
    assert Succeeds(vs[j], b, vs[j + 1]);
    DotEqualIff(Counter(vs[i + 1], a), a, Counter(vs[j + 1], b), b);
  }

  /**
   Attempts by a from version i and by b from version j use the same dot exactly when a is b and made a
   multiple of 2^48 commits in between.
   */
  lemma AttemptsShareIff(vs: seq<Vector>, writers: seq<U16>, i: nat, j: nat, a: U16, b: U16)
    requires Chain(vs, writers) && i <= j < |vs| && Counter(vs[i], a) + 1 < WRAP && Counter(vs[j], b) + 1 < WRAP
    ensures Dot(Counter(vs[i], a) + 1, a) == Dot(Counter(vs[j], b) + 1, b) <==>
            a == b && Counter(vs[j], a) >= Counter(vs[i], a)
                && (Counter(vs[j], a) - Counter(vs[i], a)) % 0x1_0000_0000_0000 == 0
  {
    hide Dot, Counter;
    Monotone(vs, writers, i, j, a);
    DotEqualIff(Counter(vs[i], a) + 1, a, Counter(vs[j], b) + 1, b);
  }
}
