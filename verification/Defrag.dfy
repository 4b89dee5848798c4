/**
 Online defragmentation (kernel/sfs_defrag.c): liveness accounting, the gap scan
 and the downward relocation of fragments.
 */
module Defrag {
  import opened Base
  import opened Extents
  import F = Falloc

  const BLOCK: nat := 4096
  const DATA_START: nat := 8192
  const MAX_CHAIN: nat := 65536
  const MAX_RECORD: nat := 67108864

  /** A stored fragment; both zero is a hole. */
  datatype Loc = Loc(addr: nat, len: nat) {
    predicate Hole() { addr == 0 && len == 0 }

    /** The blocks the fragment shares in: a packed slot counts for its whole block. */
    function Span(): Ext { Ext(addr - addr % BLOCK, F.RoundUp(addr % BLOCK + len)) }
  }

  /** A decoded record: its sealed length, the two streams, and what makes it ineligible. */
  datatype Unit = Unit(len: nat, content: Option<seq<Loc>>, meta: Option<seq<Loc>>, parent: Option<nat>,
                       strained: bool, suite: bool, pinned: bool)

  /** Readable records by address. */
  type Store = map<nat, Unit>

  // ---------------------------------------------------------------- accounting

  /** x lies in a block that holds a byte of the fragment, or the block it starts in. */
  ghost predicate Shares(l: Loc, x: nat) {
    exists y :: (l.addr == y || l.addr <= y < l.addr + l.len) && SameBlock(x, y)
  }

  predicate SameBlock(x: nat, y: nat) { x / BLOCK == y / BLOCK }

  lemma SpanExact(l: Loc, x: nat)
    ensures l.Span().Has(x) <==> Shares(l, x)
  {
    if l.Span().Has(x) {
      var y := if x < l.addr then
          l.addr else if x < l.addr + l.len then x else if l.len == 0 then l.addr else l.addr + l.len - 1;
      assert SameBlock(x, y);
    }
  }

  function Envelope(u: Unit, over: nat): nat { F.RoundUp(over + u.len) }

  predicate Readable(st: Store, addr: nat) { addr in st && 0 < st[addr].len <= MAX_RECORD }

  ghost predicate StreamHas(s: Option<seq<Loc>>, x: int) {
    s.Some? && exists i :: 0 <= i < |s.value| && !s.value[i].Hole() && s.value[i].Span().Has(x)
  }

  /** Everything a record keeps alive: its envelope and both streams' blocks. */
  ghost predicate RecordHas(u: Unit, addr: nat, over: nat, x: int) {
    Ext(addr, Envelope(u, over)).Has(x) || StreamHas(u.content, x) || StreamHas(u.meta, x)
  }

  function Next(u: Unit): nat { if u.parent.Some? then u.parent.value else 0 }

  ghost predicate ChainHas(st: Store, addr: nat, over: nat, n: nat, x: int)
    decreases n
  {
    addr != 0 && n > 0 && addr in st && (RecordHas(st[addr], addr, over, x)
        || ChainHas(st, Next(st[addr]), over, n - 1, x))
  }

  /** The chain is readable to its end within the depth limit. */
  ghost predicate ChainOk(st: Store, addr: nat, n: nat)
    decreases n
  {
    addr == 0 || (n > 0 && Readable(st, addr) && ChainOk(st, Next(st[addr]), n - 1))
  }

  /** Whole blocks only. */
  predicate Even(e: Ext) { e.addr % BLOCK == 0 && e.len % BLOCK == 0 }

  predicate Pushed(l: seq<Ext>) { forall i | 0 <= i < |l| :: l[i].len > 0 }

  predicate EvenFrom(l: seq<Ext>, n: nat) { forall i | n <= i < |l| :: Even(l[i]) }

  /** Every record starts on a block boundary. */
  ghost predicate OnGrid(st: Store) { forall a | a in st :: a % BLOCK == 0 }

  /** Appends the blocks of one stream. */
  method AccountStream(s: Option<seq<Loc>>, ivals: seq<Ext>) returns (r: seq<Ext>)
    requires Pushed(ivals)
    ensures Pushed(r) && ivals <= r
    ensures forall x :: Covers(r, x) <==> Covers(ivals, x) || StreamHas(s, x)
    ensures EvenFrom(r, |ivals|)
  {
    r := ivals;
    if s.None? { return; }
    for i := 0 to |s.value|
      invariant Pushed(r) && ivals <= r
      invariant forall x :: Covers(r, x) <==> Covers(ivals, x) || StreamHas(Some(s.value[..i]), x)
      invariant EvenFrom(r, |ivals|)
    {
      ghost var was := r;
      if !s.value[i].Hole() { r := r + [s.value[i].Span()]; }
      forall x ensures Covers(r, x) <==> Covers(ivals, x) || StreamHas(Some(s.value[..i + 1]), x)
      {
        StreamGrows(s.value, i, x);
        CoversPush(was, s.value[i].Span(), x);
      }
    }
    assert s.value[..|s.value|] == s.value && s == Some(s.value);
  }

  lemma CoversPush(l: seq<Ext>, e: Ext, x: int)
    ensures Covers(l + [e], x) <==> Covers(l, x) || e.Has(x)
  {
    var r := l + [e];
    if i :| 0 <= i < |l| && l[i].Has(x) { assert r[i].Has(x); }
    assert r[|l|] == e;
  }

  lemma StreamGrows(l: seq<Loc>, i: nat, x: int)
    requires i < |l|
    ensures StreamHas(Some(l[..i + 1]), x) <==> StreamHas(Some(l[..i]), x) || (!l[i].Hole() && l[i].Span().Has(x))
  {
    var a, b := l[..i], l[..i + 1];
    if j :| 0 <= j < |a| && !a[j].Hole() && a[j].Span().Has(x) { assert b[j] == a[j]; }
    if j :| 0 <= j < |b| && !b[j].Hole() && b[j].Span().Has(x) { if j < i { assert a[j] == b[j]; } }
    assert b[i] == l[i];
  }

  /** One record chain, head to root: fails exactly on a chain that is unreadable or too long. */
  method AccountChain(st: Store, head: nat, over: nat, ivals: seq<Ext>) returns (ok: bool, r: seq<Ext>)
    requires Pushed(ivals)
    ensures ok <==> ChainOk(st, head, MAX_CHAIN)
    ensures Pushed(r) && ivals <= r
    ensures ok ==> forall x :: Covers(r, x) <==> Covers(ivals, x) || ChainHas(st, head, over, MAX_CHAIN, x)
    ensures OnGrid(st) ==> EvenFrom(r, |ivals|)
  {
    hide RecordHas, StreamHas, Covers;
    r := ivals;
    var addr, depth := head, 0;
    while addr != 0
      invariant depth <= MAX_CHAIN && Pushed(r) && ivals <= r && (OnGrid(st) ==> EvenFrom(r, |ivals|))
      invariant ChainOk(st, head, MAX_CHAIN) <==> ChainOk(st, addr, MAX_CHAIN - depth)
      invariant forall x :: Covers(ivals, x) || ChainHas(st, head, over, MAX_CHAIN, x)
                            <==> Covers(r, x) || ChainHas(st, addr, over, MAX_CHAIN - depth, x)
      decreases MAX_CHAIN - depth
    {
      if depth >= MAX_CHAIN || !Readable(st, addr) { return false, r; }
      var u, was := st[addr], r;
      r := r + [Ext(addr, Envelope(u, over))];
      r := AccountStream(u.content, r);
      r := AccountStream(u.meta, r);
      forall x ensures Covers(r, x) <==> Covers(was, x) || RecordHas(u, addr, over, x)
          { RecordPushed(was, u, addr, over, x); }
      addr, depth := Next(u), depth + 1;
    }
    ok := true;
  }

  lemma RecordPushed(was: seq<Ext>, u: Unit, addr: nat, over: nat, x: int)
    ensures RecordHas(u, addr, over, x) || Covers(was, x)
            <==> Covers(was + [Ext(addr, Envelope(u, over))], x) || StreamHas(u.content, x) || StreamHas(u.meta, x)
  {
    hide StreamHas;
    CoversPush(was, Ext(addr, Envelope(u, over)), x);
  }

  ghost predicate IdsHave(st: Store, heads: seq<Option<nat>>, over: nat, x: int) {
    exists i :: 0 <= i < |heads| && heads[i].Some? && ChainHas(st, heads[i].value, over, MAX_CHAIN, x)
  }

  ghost predicate IdsOk(st: Store, heads: seq<Option<nat>>) {
    forall i | 0 <= i < |heads| && heads[i].Some? :: ChainOk(st, heads[i].value, MAX_CHAIN)
  }

  /** Every id-catalog entry; a malformed value is skipped. */
  method AccountIds(st: Store, heads: seq<Option<nat>>, over: nat, ivals: seq<Ext>) returns (ok: bool, r: seq<Ext>)
    requires Pushed(ivals)
    ensures ok <==> IdsOk(st, heads)
    ensures Pushed(r) && ivals <= r
    ensures ok ==> forall x :: Covers(r, x) <==> Covers(ivals, x) || IdsHave(st, heads, over, x)
    ensures OnGrid(st) ==> EvenFrom(r, |ivals|)
  {
    hide ChainHas, ChainOk, Covers, Even;
    r, ok := ivals, true;
    for i := 0 to |heads|
      invariant ok && Pushed(r) && ivals <= r && (OnGrid(st) ==> EvenFrom(r, |ivals|))
      invariant forall j | 0 <= j < i && heads[j].Some? :: ChainOk(st, heads[j].value, MAX_CHAIN)
      invariant forall x :: Covers(r, x) <==> Covers(ivals, x) || IdsHave(st, heads[..i], over, x)
    {
      ghost var was := r;
      if heads[i].Some? {
        ok, r := AccountChain(st, heads[i].value, over, r);
        if !ok { return; }
      }
      forall x ensures Covers(r, x) <==> Covers(ivals, x) || IdsHave(st, heads[..i + 1], over, x)
      {
        IdsGrow(st, heads, over, i, x);
      }
    }
    assert heads[..|heads|] == heads;
  }

  lemma IdsGrow(st: Store, heads: seq<Option<nat>>, over: nat, i: nat, x: int)
    requires i < |heads|
    ensures IdsHave(st, heads[..i + 1], over, x) <==>
            IdsHave(st, heads[..i], over, x)
            || (heads[i].Some? && ChainHas(st, heads[i].value, over, MAX_CHAIN, x))
  {
    hide ChainHas;
    var a, b := heads[..i], heads[..i + 1];
    if j :| 0 <= j < |a| && a[j].Some? && ChainHas(st, a[j].value, over, MAX_CHAIN, x) { assert b[j] == a[j]; }
    if j :| 0 <= j < |b| && b[j].Some? && ChainHas(st, b[j].value, over, MAX_CHAIN, x)
        { if j < i { assert a[j] == b[j]; } }
    assert b[i] == heads[i];
  }

  // ---------------------------------------------------------------- the gap scan

  predicate Ascending(l: seq<Ext>) { forall i, j | 0 <= i < j < |l| :: l[i].addr <= l[j].addr }

  method InsertByStart(l: seq<Ext>, e: Ext) returns (r: seq<Ext>)
    requires Ascending(l)
    ensures Ascending(r) && multiset(r) == multiset(l) + multiset{e}
  {
    hide Ascending;
    var i := |l|;
    while i > 0 && e.addr < l[i - 1].addr
      invariant 0 <= i <= |l| && forall j | i <= j < |l| :: e.addr < l[j].addr
    {
      i := i - 1;
    }
    r := l[..i] + [e] + l[i..];
    SplitAscends(l, i, e);
    SplitKeeps(l, i, e);
  }

  lemma SplitAscends(l: seq<Ext>, i: nat, e: Ext)
    requires Ascending(l) && i <= |l|
    requires (i > 0 ==> l[i - 1].addr <= e.addr) && forall j | i <= j < |l| :: e.addr <= l[j].addr
    ensures Ascending(l[..i] + [e] + l[i..])
  {
    forall j | 0 <= j < i ensures l[j].addr <= e.addr { assert j == i - 1 || l[j].addr <= l[i - 1].addr; }
    var r := l[..i] + [e] + l[i..];
    forall k | 0 <= k < |r| ensures r[k] == if k < i then l[k] else if k == i then e else l[k - 1] {}
  }

  lemma SplitKeeps(l: seq<Ext>, i: nat, e: Ext)
    requires i <= |l|
    ensures multiset(l[..i] + [e] + l[i..]) == multiset(l) + multiset{e}
  {
    assert l == l[..i] + l[i..];
  }

  /** The library sort, by insertion. */
  method SortByStart(l: seq<Ext>) returns (r: seq<Ext>)
    ensures Ascending(r) && multiset(r) == multiset(l)
  {
    hide Ascending;
    r := [];
    assert Ascending(r) by { NoneAscend(); }
    for i := 0 to |l|
      invariant Ascending(r) && multiset(r) == multiset(l[..i])
    {
      assert l[..i + 1] == l[..i] + [l[i]];
      r := InsertByStart(r, l[i]);
    }
    assert l[..|l|] == l;
  }

  lemma NoneAscend()
    ensures Ascending([])
  {}

  lemma SortedCovers(l: seq<Ext>, r: seq<Ext>, x: int)
    requires multiset(l) == multiset(r)
    ensures Covers(l, x) <==> Covers(r, x)
  {
    if i :| 0 <= i < |l| && l[i].Has(x) { assert l[i] in multiset(r); }
    if i :| 0 <= i < |r| && r[i].Has(x) { assert r[i] in multiset(l); }
  }

  /** a is where a hole begins. */
  ghost predicate LeftEdge(l: seq<Ext>, lo: nat, a: int) { a == lo || (a > lo && Covers(l, a - 1)) }

  /** The end of the block that holds x, blocks counted from a. */
  function BlockEnd(a: int, x: int): (r: int)
    requires a <= x
    ensures x < r <= x + BLOCK && (r - a) % BLOCK == 0
  {
    a + ((x - a) / BLOCK + 1) * BLOCK
  }

  /** Whole blocks counted from a, up to the one holding x, are uncovered and end by hi. */
  ghost predicate ClearTo(l: seq<Ext>, a: int, hi: nat, x: int) {
    a <= x && BlockEnd(a, x) <= hi && forall y | a <= y < BlockEnd(a, x) :: !Covers(l, y)
  }

  /** x lies in a whole block of a hole of [lo, hi), blocks counted from the hole's start. */
  ghost predicate InHole(l: seq<Ext>, lo: nat, hi: nat, x: int) {
    exists a :: LeftEdge(l, lo, a) && ClearTo(l, a, hi, x)
  }

  ghost function HolesBelow(l: seq<Ext>, lo: nat, hi: nat, m: int): F.Bytes { iset x | InHole(l, lo, hi, x) && x < m }

  ghost function Holes(l: seq<Ext>, lo: nat, hi: nat): F.Bytes { iset x | InHole(l, lo, hi, x) }

  lemma {:induction false} FindEdge(l: seq<Ext>, lo: nat, x: int) returns (a: int)
    requires lo <= x && !Covers(l, x)
    ensures LeftEdge(l, lo, a) && lo <= a <= x && forall y | a <= y <= x :: !Covers(l, y)
    decreases x - lo
  {
    if x == lo || Covers(l, x - 1) { a := x; } else { a := FindEdge(l, lo, x - 1); }
  }

  lemma EvenBlock(l: seq<Ext>, y: nat, x: nat)
    requires (forall i | 0 <= i < |l| :: Even(l[i])) && SameBlock(x, y)
    ensures Covers(l, y) ==> Covers(l, x)
  {
    if i :| 0 <= i < |l| && l[i].Has(y) {
      assert Even(l[i]);
      assert l[i].Has(x);
    }
  }

  lemma EvenEdge(l: seq<Ext>, lo: nat, a: int)
    requires lo % BLOCK == 0 && (forall i | 0 <= i < |l| :: Even(l[i])) && LeftEdge(l, lo, a) && !Covers(l, a)
    ensures a % BLOCK == 0
  {
    if a > lo {
      var i :| 0 <= i < |l| && l[i].Has(a - 1);
      assert Even(l[i]);
    }
  }

  lemma InBlock(e: int, x: nat, y: nat)
    requires e % BLOCK == 0 && e - BLOCK <= x < e && e - BLOCK <= y < e
    ensures SameBlock(x, y)
  {}

  lemma EvenClear(l: seq<Ext>, hi: nat, a: int, x: nat)
    requires hi % BLOCK == 0 && a % BLOCK == 0 && a <= x < hi && forall i | 0 <= i < |l| :: Even(l[i])
    requires forall y | a <= y <= x :: !Covers(l, y)
    ensures ClearTo(l, a, hi, x)
  {
    hide Covers, Even, SameBlock;
    var e := BlockEnd(a, x);
    assert e % BLOCK == 0;
    forall y | x < y < e ensures !Covers(l, y) {
      InBlock(e, x, y);
      EvenBlock(l, y, x);
    }
  }

  /** Where every interval is whole blocks, the holes are exactly the uncovered bytes. */
  lemma EvenHoles(l: seq<Ext>, lo: nat, hi: nat, x: int)
    requires lo % BLOCK == 0 && hi % BLOCK == 0 && forall i | 0 <= i < |l| :: Even(l[i])
    ensures InHole(l, lo, hi, x) <==> lo <= x < hi && !Covers(l, x)
  {
    hide Covers, LeftEdge, Even, ClearTo;
    if lo <= x < hi && !Covers(l, x) {
      var a := FindEdge(l, lo, x);
      EvenEdge(l, lo, a);
      EvenClear(l, hi, a, x);
    }
    if !(lo <= x < hi && !Covers(l, x)) { NoHole(l, lo, hi, x); }
  }

  /** Everything before index i ends at or below the cursor, which is the edge of what has been seen. */
  ghost predicate Seen(l: seq<Ext>, lo: nat, i: nat, c: nat) {
    && i <= |l| && lo <= c && LeftEdge(l, lo, c)
    && forall j | 0 <= j < i :: l[j].End() <= c
  }

  function Start(l: seq<Ext>, i: nat, hi: nat): nat { if i < |l| && l[i].addr < hi then l[i].addr else hi }

  function Gap(c: nat, h: nat): nat { if h > c then (h - c) / BLOCK * BLOCK else 0 }

  lemma Uncovered(l: seq<Ext>, lo: nat, hi: nat, i: nat, c: nat, y: int)
    requires Ascending(l) && Seen(l, lo, i, c) && c <= y < Start(l, i, hi)
    ensures !Covers(l, y)
  {
    if j :| 0 <= j < |l| && l[j].Has(y) {
    }
  }

  lemma OneEdge(l: seq<Ext>, lo: nat, a: int, c: nat, x: int)
    requires LeftEdge(l, lo, a) && LeftEdge(l, lo, c) && a <= x && c <= x
    requires forall y | a <= y <= x :: !Covers(l, y)
    requires forall y | c <= y <= x :: !Covers(l, y)
    requires lo <= c
    ensures a == c
  {}

  /** Between the cursor and the next interval, the holes are the whole blocks from the cursor. */
  lemma HoleAhead(l: seq<Ext>, lo: nat, hi: nat, i: nat, c: nat, x: int)
    requires Ascending(l) && Pushed(l) && Seen(l, lo, i, c) && c <= x < Start(l, i, hi)
    ensures InHole(l, lo, hi, x) <==> x < c + Gap(c, Start(l, i, hi))
  {
    var h := Start(l, i, hi);
    hide LeftEdge, Covers;
    forall y | c <= y < h ensures !Covers(l, y) { Uncovered(l, lo, hi, i, c, y); }
    if x < c + Gap(c, h) { assert ClearTo(l, c, hi, x); }
    if InHole(l, lo, hi, x) {
      var a :| LeftEdge(l, lo, a) && ClearTo(l, a, hi, x);
      OneEdge(l, lo, a, c, x);
      if i < |l| && h == l[i].addr { CoversAt(l, i, h); assert Covers(l, h); }
    }
  }

  /** A covered stretch holds no hole. */
  lemma NoHole(l: seq<Ext>, lo: nat, hi: nat, x: int)
    requires Covers(l, x) || x >= hi || x < lo
    ensures !InHole(l, lo, hi, x)
  {
    hide Covers;
  }

  function Advance(l: seq<Ext>, i: nat, c: nat): nat { if i < |l| && l[i].End() > c then l[i].End() else c }

  /** One turn of the scan: the cursor passes one interval and the blocks before it become holes. */
  lemma GapStep(l: seq<Ext>, lo: nat, hi: nat, i: nat, c: nat)
    requires Ascending(l) && Pushed(l) && i < |l| && Seen(l, lo, i, c)
    ensures Seen(l, lo, i + 1, Advance(l, i, c))
    ensures HolesBelow(l, lo, hi, Advance(l, i, c)) == HolesBelow(l, lo, hi, c) + Range(c, Gap(c, Start(l, i, hi)))
  {
    var c', h := Advance(l, i, c), Start(l, i, hi);
    if c' > c { CoversAt(l, i, c' - 1); }
    hide Covers, LeftEdge, InHole;
    forall x | c <= x < c' && x >= h ensures !InHole(l, lo, hi, x)
    {
      if x < hi { CoversAt(l, i, x); }
      NoHole(l, lo, hi, x);
    }
    forall x | c <= x < h ensures InHole(l, lo, hi, x) <==> x < c + Gap(c, h) { HoleAhead(l, lo, hi, i, c, x); }
  }

  /** The last turn: from the cursor to the frontier. */
  lemma GapEnd(l: seq<Ext>, lo: nat, hi: nat, c: nat)
    requires Ascending(l) && Pushed(l) && Seen(l, lo, |l|, c)
    ensures Holes(l, lo, hi) == HolesBelow(l, lo, hi, c) + Range(c, Gap(c, hi))
  {
    hide Covers, LeftEdge, InHole;
    forall x | x >= hi ensures !InHole(l, lo, hi, x) { NoHole(l, lo, hi, x); }
    forall x | c <= x < hi ensures InHole(l, lo, hi, x) <==> x < c + Gap(c, hi) { HoleAhead(l, lo, hi, |l|, c, x); }
  }

  /** The scan's effect on the allocator: these bytes move from owned to the live free list, nothing else. */
  ghost predicate Returned(s: F.Space, s': F.Space, r: F.Bytes) {
    s' == s.(live := s.live + r, owned := s.owned - r, used := s.used - r, base := s'.base, filled := s'.filled)
  }

  lemma ReturnedMore(s: F.Space, m: F.Space, s': F.Space, r: F.Bytes, a: nat, n: nat)
    requires Returned(s, m, r) && F.Freed(m, s', F.Live, a, n)
    ensures Returned(s, s', r + Range(a, n))
  {
    assert s.live + (r + Range(a, n)) == (s.live + r) + Range(a, n);
    assert s.owned - (r + Range(a, n)) == (s.owned - r) - Range(a, n);
    assert s.used - (r + Range(a, n)) == (s.used - r) - Range(a, n);
  }

  /**
   What the scan relies on: no scope has deferred frees, and the list covers the published root and every free
   list.
   */
  ghost predicate Accounted(s: F.Space, l: seq<Ext>) {
    && s.nodes == iset{} && s.data == iset{} && s.lo <= DATA_START
    && (forall x :: x in s.active || x in s.head || x in s.live ==> Covers(l, x))
  }

  /** A hole is owned by the allocator and needed by nobody. */
  lemma HoleIsLoose(s: F.Space, m: F.Space, l: seq<Ext>, i: nat, c: nat, n: nat)
    requires F.Parts(s) && Accounted(s, l) && Ascending(l) && Seen(l, DATA_START, i, c)
    requires Returned(s, m, HolesBelow(l, DATA_START, s.frontier, c)) && n == Gap(c, Start(l, i, s.frontier)) > 0
    ensures Range(c, n) <= m.owned && c + n <= m.frontier && F.RoundUp(n) == n
    ensures F.Apart(Range(c, n), m.active) && F.Apart(Range(c, n), m.nodes) && F.Apart(Range(c, n), m.data)
  {
    hide InHole, LeftEdge, Covers;
    assert c + n <= Start(l, i, s.frontier) <= s.frontier;
    forall x | x in Range(c, n) ensures !Covers(l, x) { Uncovered(l, DATA_START, s.frontier, i, c, x); }
  }

  lemma SortedHoles(l: seq<Ext>, r: seq<Ext>, lo: nat, hi: nat)
    requires multiset(l) == multiset(r)
    ensures (forall x :: Covers(l, x) <==> Covers(r, x)) && Holes(l, lo, hi) == Holes(r, lo, hi)
  {
    hide Covers;
    forall x ensures Covers(l, x) <==> Covers(r, x) { SortedCovers(l, r, x); }
    forall a, x ensures ClearTo(l, a, hi, x) <==> ClearTo(r, a, hi, x) {}
    forall a ensures LeftEdge(l, lo, a) <==> LeftEdge(r, lo, a) {}
  }

  lemma SortedPushed(l: seq<Ext>, r: seq<Ext>)
    requires multiset(l) == multiset(r) && Pushed(l)
    ensures Pushed(r)
  {
    forall i | 0 <= i < |r| ensures r[i].len > 0 { assert r[i] in multiset(l); }
  }

  /** Frees one gap, or nothing when less than a block is left. */
  method FreeGap(fa: F.Falloc, ghost s: F.Space, l: seq<Ext>, i: nat, c: nat)
    requires fa.Valid() && F.Parts(s) && Accounted(s, l) && Ascending(l) && Seen(l, DATA_START, i, c)
    requires Returned(s, fa.Abs(), HolesBelow(l, DATA_START, s.frontier, c))
    modifies fa
    ensures fa.Valid()
    ensures Returned(s, fa.Abs(), HolesBelow(l, DATA_START, s.frontier, c) + Range(c, Gap(c, Start(l, i, s.frontier))))
  {
    hide Seen, Accounted, Ascending, F.Inv, F.Parts, F.Freed, F.Apart, Range, Gap, Extents.Canonical, Cover, HolesBelow;
    ghost var m := fa.Abs();
    var n := Gap(c, Start(l, i, fa.frontier));
    if n > 0 {
      HoleIsLoose(s, m, l, i, c, n);
      fa.Free(c, n, F.Live);
      ReturnedMore(s, m, fa.Abs(), HolesBelow(l, DATA_START, s.frontier, c), c, n);
    } else {
      NoBytes(c, HolesBelow(l, DATA_START, s.frontier, c));
    }
  }

  lemma NoBytes(c: nat, r: F.Bytes)
    ensures r + Range(c, 0) == r
  {}

  /** Frees exactly the whole-block holes below the frontier that the list leaves uncovered. */
  method GapScan(fa: F.Falloc, ivals: seq<Ext>)
    requires fa.Valid() && Pushed(ivals) && Accounted(fa.Abs(), ivals)
    modifies fa
    ensures fa.Valid() && Returned(old(fa.Abs()), fa.Abs(), Holes(ivals, DATA_START, old(fa.frontier)))
  {
    hide Covers, Ascending, F.Inv, F.Parts, F.Freed, F.Apart, Range, Gap, Extents.Canonical, Cover, HolesBelow, Holes,
        Seen, Pushed;
    ghost var s := fa.Abs();
    var l := SortByStart(ivals);
    SortedPushed(ivals, l);
    SortedHoles(ivals, l, DATA_START, s.frontier);
    assert F.Parts(s) by { PartsOf(s); }
    var cursor := DATA_START;
    ScanStart(l, s);
    for i := 0 to |l|
      invariant fa.Valid() && Seen(l, DATA_START, i, cursor)
      invariant Returned(s, fa.Abs(), HolesBelow(l, DATA_START, s.frontier, cursor))
    {
      GapStep(l, DATA_START, s.frontier, i, cursor);
      FreeGap(fa, s, l, i, cursor);
      cursor := Advance(l, i, cursor);
    }
    GapEnd(l, DATA_START, s.frontier, cursor);
    FreeGap(fa, s, l, |l|, cursor);
  }

  lemma PartsOf(s: F.Space)
    requires F.Inv(s)
    ensures F.Parts(s)
  {}

  lemma ScanStart(l: seq<Ext>, s: F.Space)
    ensures Seen(l, DATA_START, 0, DATA_START) && Returned(s, s, HolesBelow(l, DATA_START, s.frontier, DATA_START))
  {
    hide Covers, LeftEdge;
    forall x | x < DATA_START ensures !InHole(l, DATA_START, s.frontier, x) { NoHole(l, DATA_START, s.frontier, x); }
    assert LeftEdge(l, DATA_START, DATA_START) by { FirstEdge(l); }
    var r := HolesBelow(l, DATA_START, s.frontier, DATA_START);
    assert s.live + r == s.live && s.owned - r == s.owned && s.used - r == s.used;
  }

  lemma FirstEdge(l: seq<Ext>)
    ensures LeftEdge(l, DATA_START, DATA_START)
  {}

  /** After a scan over whole-block intervals nothing below the frontier is owned unless the list covers it. */
  lemma ScanLeavesNoLeak(s: F.Space, s': F.Space, l: seq<Ext>)
    requires F.Parts(s) && Returned(s, s', Holes(l, DATA_START, s.frontier))
    requires s.frontier % BLOCK == 0 && forall i | 0 <= i < |l| :: Even(l[i])
    ensures forall x | DATA_START <= x < s.frontier :: x in s'.owned <==> x in s.owned && Covers(l, x)
    ensures forall x :: x in s'.live <==> x in s.live || (DATA_START <= x < s.frontier && !Covers(l, x))
  {
    hide Covers, InHole, Even;
    forall x ensures InHole(l, DATA_START, s.frontier, x) <==> DATA_START <= x < s.frontier && !Covers(l, x)
    {
      EvenHoles(l, DATA_START, s.frontier, x);
    }
  }
}
