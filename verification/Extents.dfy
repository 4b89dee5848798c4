/**
 Extent lists: the sorted, coalesced free lists of the block allocator
 (kernel/sfs_falloc.c).
 */
module Extents {

  /** The bytes [addr, addr + len). */
  datatype Ext = Ext(addr: nat, len: nat) {
    function End(): nat { addr + len }
    predicate Has(x: int) { addr <= x < addr + len }
  }

  ghost function Range(a: nat, n: nat): iset<int> { iset x | Ext(a, n).Has(x) }

  ghost predicate Covers(l: seq<Ext>, x: int) { exists i :: 0 <= i < |l| && l[i].Has(x) }

  /** The set of bytes an extent list stands for. */
  ghost function Cover(l: seq<Ext>): iset<int> { iset x | Covers(l, x) }

  /** Sorted by address, non-empty, disjoint and never touching. */
  predicate Canonical(l: seq<Ext>) {
    && (forall i :: 0 <= i < |l| ==> l[i].len > 0)
    && (forall i, j :: 0 <= i < j < |l| ==> l[i].End() < l[j].addr)
  }

  lemma CoversAt(l: seq<Ext>, i: nat, x: int)
    requires i < |l| && l[i].Has(x)
    ensures x in Cover(l)
  {}

  /** Replacing the run [i, j) by one extent, or by nothing. */
  lemma Splice(l: seq<Ext>, i: nat, mid: seq<Ext>, j: nat, x: int)
    requires i <= j <= |l|
    ensures Covers(l[..i] + mid + l[j..], x) <==>
            Covers(mid, x) || exists k :: 0 <= k < |l| && !(i <= k < j) && l[k].Has(x)
  {
    var r := l[..i] + mid + l[j..];
    if Covers(r, x) {
      var k :| 0 <= k < |r| && r[k].Has(x);
      if i <= k < i + |mid| { assert mid[k - i].Has(x); }
      else if k >= i + |mid| { assert l[k - |mid| - i + j].Has(x); }
    }
    if Covers(mid, x) {
      var k :| 0 <= k < |mid| && mid[k].Has(x);
      assert r[i + k].Has(x);
    }
    if k :| 0 <= k < |l| && !(i <= k < j) && l[k].Has(x) {
      assert r[if k < i then k else k - j + i + |mid|].Has(x);
    }
  }

  /** A canonical list is determined by the bytes it covers. */
  lemma {:induction false} CanonicalUnique(a: seq<Ext>, b: seq<Ext>, n: nat)
    requires Canonical(a) && Canonical(b) && Cover(a) == Cover(b)
    requires n <= |a| && n <= |b| && a[..n] == b[..n]
    ensures a == b
    decreases |a| - n
  {
    if n < |a| && n < |b| {
      assert forall i | 0 <= i < n :: a[i] == a[..n][i] == b[..n][i] == b[i];
      ExtentAgrees(a, b, n);
      ExtentAgrees(b, a, n);
      assert a[..n + 1] == a[..n] + [a[n]] && b[..n + 1] == b[..n] + [b[n]];
      CanonicalUnique(a, b, n + 1);
    } else if n < |a| {
      CoversAt(a, n, a[n].addr);
    } else if n < |b| {
      CoversAt(b, n, b[n].addr);
    }
  }

  lemma ExtentAgrees(a: seq<Ext>, b: seq<Ext>, n: nat)
    requires Canonical(a) && Canonical(b) && Cover(a) == Cover(b)
    requires n < |a| && n < |b| && forall i :: 0 <= i < n ==> a[i] == b[i]
    ensures b[n].addr <= a[n].addr
    ensures a[n].addr == b[n].addr ==> a[n].End() <= b[n].End()
  {
    CoversAt(a, n, a[n].addr);
    if a[n].addr == b[n].addr && b[n].End() < a[n].End() { CoversAt(a, n, b[n].End()); }
  }

  /** First index whose end reaches addr. */
  method LowerBound(l: seq<Ext>, addr: nat) returns (lo: nat)
    requires Canonical(l)
    ensures lo <= |l|
    ensures forall i :: 0 <= i < lo ==> l[i].End() < addr
    ensures forall i :: lo <= i < |l| ==> l[i].End() >= addr
  {
    lo := 0;
    var hi := |l|;
    while lo < hi
      invariant lo <= hi <= |l|
      invariant forall i :: 0 <= i < lo ==> l[i].End() < addr
      invariant forall i :: hi <= i < |l| ==> l[i].End() >= addr
    {
      var mid := lo + (hi - lo) / 2;
      if l[mid].End() < addr { lo := mid + 1; } else { hi := mid; }
    }
  }

  /** The run [i, j) of l is exactly what [addr, addr + len) touches; [start, end) is their union. */
  ghost predicate Merged(l: seq<Ext>, addr: nat, len: nat, i: nat, j: nat, start: nat, end: nat) {
    && i <= j <= |l|
    && start <= addr && addr + len <= end
    && (forall k :: 0 <= k < i ==> l[k].End() < start)
    && (forall k :: i <= k < j ==> start <= l[k].addr && l[k].End() <= end)
    && (start < addr ==> i < j && start == l[i].addr)
    && (end > addr + len ==> i < j && end == l[j - 1].End())
    && (i < j ==> l[i].End() >= addr && l[j - 1].addr <= addr + len)
  }

  lemma MergedAt(l: seq<Ext>, addr: nat, len: nat, i: nat, j: nat, start: nat, end: nat, x: int)
    requires len > 0 && Merged(l, addr, len, i, j, start, end)
    ensures Covers(l[..i] + [Ext(start, end - start)] + l[j..], x) <==> Covers(l, x) || Ext(addr, len).Has(x)
  {
    var e := Ext(start, end - start);
    Splice(l, i, [e], j, x);
    assert Covers([e], x) <==> e.Has(x) by { assert [e][0] == e; }
    if e.Has(x) && x < addr { assert l[i].Has(x); }
    if e.Has(x) && x >= addr + len { assert l[j - 1].Has(x); }
  }

  lemma MergedCover(l: seq<Ext>, addr: nat, len: nat, i: nat, j: nat, start: nat, end: nat)
    requires Canonical(l) && len > 0 && Merged(l, addr, len, i, j, start, end)
    requires j < |l| ==> end < l[j].addr
    ensures var r := l[..i] + [Ext(start, end - start)] + l[j..];
            Canonical(r) && Cover(r) == Cover(l) + Range(addr, len)
  {
    var r := l[..i] + [Ext(start, end - start)] + l[j..];
    assert forall k | j <= k < |l| :: end < l[k].addr;
    forall x ensures x in Cover(r) <==> x in Cover(l) || x in Range(addr, len)
    {
      MergedAt(l, addr, len, i, j, start, end, x);
    }
  }

  /** Coalescing insert: absorbs every extent that touches or overlaps the new one. */
  method Insert(l: seq<Ext>, addr: nat, len: nat) returns (r: seq<Ext>)
    requires Canonical(l) && len > 0
    ensures Canonical(r)
    ensures Cover(r) == Cover(l) + Range(addr, len)
    ensures (forall k :: 0 <= k < |l| ==> l[k].End() < addr || l[k].addr > addr + len) ==> |r| == |l| + 1
  {
    var start: nat, end: nat := addr, addr + len;
    var i := LowerBound(l, start);
    var j := i;
    while j < |l| && l[j].addr <= end
      invariant Merged(l, addr, len, i, j, start, end)
    {
      if l[j].addr < start { start := l[j].addr; }
      if l[j].End() > end { end := l[j].End(); }
      j := j + 1;
    }
    MergedCover(l, addr, len, i, j, start, end);
    r := l[..i] + [Ext(start, end - start)] + l[j..];
  }

  ghost predicate Fits(l: seq<Ext>, need: nat) { exists i :: 0 <= i < |l| && l[i].len >= need }

  /** addr is the lowest address in l with room for need bytes. */
  ghost predicate FirstFit(l: seq<Ext>, need: nat, addr: nat) {
    exists i :: 0 <= i < |l| && addr == l[i].addr && l[i].len >= need && forall j :: 0 <= j < i ==> l[j].len < need
  }

  /** First fit by lowest address, taken from the front of the extent. */
  method Take(l: seq<Ext>, need: nat) returns (found: bool, addr: nat, r: seq<Ext>)
    requires Canonical(l) && need > 0
    ensures Canonical(r)
    ensures found <==> Fits(l, need)
    ensures !found ==> r == l
    ensures found ==> Range(addr, need) <= Cover(l) && Cover(r) == Cover(l) - Range(addr, need)
    ensures found ==> FirstFit(l, need, addr)
  {
    for i := 0 to |l|
      invariant forall j :: 0 <= j < i ==> l[j].len < need
    {
      if l[i].len >= need {
        found, addr := true, l[i].addr;
        var rest := if l[i].len == need then [] else [Ext(l[i].addr + need, l[i].len - need)];
        r := l[..i] + rest + l[i + 1..];
        Shrink(l, i, rest);
        return;
      }
    }
    found, addr, r := false, 0, l;
  }

  /** Shrinking one extent (or dropping it) removes exactly the bytes given up. */
  lemma Shrink(l: seq<Ext>, i: nat, part: seq<Ext>)
    requires Canonical(l) && i < |l| && |part| <= 1
    requires part != [] ==> part[0].len > 0 && l[i].addr <= part[0].addr && part[0].End() <= l[i].End()
    ensures var r := l[..i] + part + l[i + 1..];
            && Canonical(r)
            && Range(l[i].addr, l[i].len) <= Cover(l)
            && (forall x :: x in Cover(r) <==> x in Cover(l) && (l[i].Has(x) ==> part != [] && part[0].Has(x)))
  {
    var r := l[..i] + part + l[i + 1..];
    forall x ensures x in Cover(r) <==> x in Cover(l) && (l[i].Has(x) ==> part != [] && part[0].Has(x))
    {
      Splice(l, i, part, i + 1, x);
    }
    forall x | l[i].Has(x) ensures x in Cover(l) { CoversAt(l, i, x); }
  }

  ghost predicate Overlaps(l: seq<Ext>, addr: nat, len: nat) {
    exists k :: 0 <= k < |l| && l[k].End() > addr && l[k].addr < addr + len
  }

  lemma NoOverlap(l: seq<Ext>, addr: nat, len: nat)
    requires Canonical(l) && len > 0 && Cover(l) !! Range(addr, len)
    ensures !Overlaps(l, addr, len)
  {
    if k :| 0 <= k < |l| && l[k].End() > addr && l[k].addr < addr + len {
      var x := if l[k].addr < addr then addr else l[k].addr;
      CoversAt(l, k, x);
      assert Ext(addr, len).Has(x);
    }
  }

  /** Cuts [addr, addr + len) out of the list, splitting extents where needed. */
  method RemoveRange(l: seq<Ext>, addr: nat, len: nat) returns (r: seq<Ext>)
    requires Canonical(l) && len > 0
    ensures Canonical(r)
    ensures Cover(r) == Cover(l) - Range(addr, len)
  {
    r := l;
    var end: nat, i: nat := addr + len, 0;
    while i < |r|
      invariant Canonical(r) && i <= |r|
      invariant Cover(r) <= Cover(l) <= Cover(r) + Range(addr, len)
      invariant forall k :: 0 <= k < i ==> r[k].End() <= addr || r[k].addr >= end
      decreases Overlaps(r, addr, len), |r| - i
    {
      var e := r[i];
      if e.End() <= addr || e.addr >= end {
        i := i + 1;
      } else if e.addr < addr && e.End() > end {
        r := CutMiddle(r, i, addr, len);
        i := i + 1;
      } else {
        var part := if e.addr < addr then [Ext(e.addr, addr - e.addr)]
                    else if e.End() > end then [Ext(end, e.End() - end)]
                    else [];
        Shrink(r, i, part);
        r := r[..i] + part + r[i + 1..];
        i := i + |part|;
      }
    }
    assert Cover(r) !! Range(addr, len);
  }

  /** The cut lies inside extent i: shrink it in place and insert the tail. */
  method CutMiddle(l: seq<Ext>, i: nat, addr: nat, len: nat) returns (r: seq<Ext>)
    requires Canonical(l) && len > 0 && i < |l| && l[i].addr < addr && l[i].End() > addr + len
    ensures Canonical(r) && |r| == |l| + 1
    ensures Cover(r) == Cover(l) - Range(addr, len)
    ensures !Overlaps(r, addr, len)
  {
    var head, end := Ext(l[i].addr, addr - l[i].addr), addr + len;
    Shrink(l, i, [head]);
    r := l[..i] + [head] + l[i + 1..];
    r := Insert(r, end, l[i].End() - end);
    forall x ensures x in Cover(r) <==> x in Cover(l) && x !in Range(addr, len)
    {
      if l[i].Has(x) { CoversAt(l, i, x); }
    }
    NoOverlap(r, addr, len);
  }

  /** Inserts every extent of src, one coalescing insert at a time. */
  method InsertAll(dst: seq<Ext>, src: seq<Ext>) returns (r: seq<Ext>)
    requires Canonical(dst) && Canonical(src)
    ensures Canonical(r) && Cover(r) == Cover(dst) + Cover(src)
  {
    r := dst;
    for i := 0 to |src|
      invariant Canonical(r)
      invariant Cover(r) == Cover(dst) + Cover(src[..i])
    {
      r := Insert(r, src[i].addr, src[i].len);
      forall x ensures x in Cover(src[..i + 1]) <==> x in Cover(src[..i]) || x in Range(src[i].addr, src[i].len)
      {
        if src[i].Has(x) { CoversAt(src[..i + 1], i, x); }
      }
    }
    assert src[..|src|] == src;
  }
}
