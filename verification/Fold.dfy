/**
 Folding staged writes, truncates and extends into a successor record at the
 stream's own fragment size (kernel/sfs_cow.c:1138-1540 and 335-432).
 */
module Fold {
  import opened Base
  import F = Falloc
  import opened Undo
  import opened ContentIo
  import VV = VersionVector

  // ---------------------------------------------------------------- geometry

  function Pow2(e: nat): (r: nat)
    ensures r > 0
  {
    if e == 0 then 1 else 2 * Pow2(e - 1)
  }

  function Times(a: nat, b: nat): nat { a * b }

  function Quot(p: nat, fs: nat): nat
    requires fs > 0
  {
    p / fs
  }

  function Rem(p: nat, fs: nat): (r: nat)
    requires fs > 0
    ensures r < fs
  {
    p % fs
  }

  lemma TimesSucc(a: nat, c: nat)
    ensures Times(a + 1, c) == Times(a, c) + c && Times(0, c) == 0
  {}

  lemma TimesLe(a: nat, b: nat, c: nat)
    requires a <= b
    ensures Times(a, c) <= Times(b, c)
  {
    assert b * c == a * c + (b - a) * c;
  }

  lemma DivMod(p: nat, fs: nat)
    requires fs > 0
    ensures p == Times(Quot(p, fs), fs) + Rem(p, fs)
  {}

  lemma Unique(p: nat, fs: nat, q: nat, r: nat)
    requires fs > 0 && p == Times(q, fs) + r && r < fs
    ensures Quot(p, fs) == q && Rem(p, fs) == r
  {
    hide Times, Quot, Rem;
    var q' := Quot(p, fs);
    DivMod(p, fs);
    if q < q' { TimesSucc(q, fs); TimesLe(q + 1, q', fs); } else if q' < q
        { TimesSucc(q', fs); TimesLe(q' + 1, q, fs); }
  }

  /** Number of fragments of a stream of the given size. */
  function Frags(size: nat, fs: nat): nat
    requires fs > 0
  {
    Quot(size + fs - 1, fs)
  }

  /** Logical length of the last fragment. */
  function LastLen(size: nat, fs: nat): nat
    requires fs > 0
  {
    if size == 0 then 0 else if Rem(size, fs) == 0 then fs else Rem(size, fs)
  }

  lemma Geometry(size: nat, fs: nat)
    requires fs > 0
    ensures size == 0 ==> Frags(size, fs) == 0
    ensures size > 0 ==>
      var n := Frags(size, fs); n > 0 && 0 < LastLen(size, fs) <= fs && Times(n - 1, fs) + LastLen(size, fs) == size
  {
    hide Times, Quot, Rem;
    var q, r := Quot(size, fs), Rem(size, fs);
    DivMod(size, fs);
    TimesSucc(q, fs);
    if q > 0 { TimesSucc(q - 1, fs); }
    if r == 0 { Unique(size + fs - 1, fs, q, fs - 1); } else { Unique(size + fs - 1, fs, q + 1, r - 1); }
  }

  /** Position p lies in fragment Quot(p, fs), which exists exactly below the size rounded up. */
  lemma Position(size: nat, fs: nat, p: nat)
    requires fs > 0
    ensures p < size ==> Quot(p, fs) < Frags(size, fs)
    ensures Quot(p, fs) + 1 < Frags(size, fs) ==> p < size
    ensures p == Times(Quot(p, fs), fs) + Rem(p, fs)
  {
    hide Times, Quot, Rem, Frags, LastLen;
    Geometry(size, fs);
    DivMod(p, fs);
    var n, q := Frags(size, fs), Quot(p, fs);
    TimesSucc(q, fs);
    if n > 0 { TimesSucc(n - 1, fs); }
    if n <= q { TimesLe(n, q, fs); } else if q + 1 < n { TimesLe(q + 1, n - 1, fs); }
  }

  // ---------------------------------------------------------------- records

  datatype Loc = Loc(addr: nat, len: nat) {
    /** The all-zero location stands for a run of zeros. */
    predicate Hole() { addr == 0 && len == 0 }
  }

  /** The content stream of a unit record; an empty suite table means one suite throughout. */
  datatype Rec = Rec(exp: nat, dots: seq<nat>, locs: seq<Loc>, last: nat, suite: Suite, suites: seq<Suite>,
      vv: VV.Vector) {
    function Fs(): (r: nat) ensures r > 0 { Pow2(exp) }

    function Size(): nat { if locs == [] then 0 else Times(|locs| - 1, Fs()) + last }

    function SuiteOf(i: nat): Suite
      requires suites == [] || i < |suites|
    {
      if suites == [] then suite else suites[i]
    }
  }

  predicate Shaped(r: Rec) {
    && 12 <= r.exp <= 22 && |r.dots| == |r.locs| && (r.suites == [] || |r.suites| == |r.locs|)
    && (if r.locs == [] then r.last == 0 else 0 < r.last <= r.Fs())
  }

  /** The fragment's ciphertext is where the record says, sealed under the record's own context. */
  ghost predicate FragIn(view: Cells, r: Rec, i: nat)
    requires Shaped(r) && i < |r.locs|
  {
    var l := r.locs[i];
    l.Hole() ||
    (l.addr > 0 && l.addr in view && view[l.addr].Slot? && var b := view[l.addr].b;
     b.suite == r.SuiteOf(i) && b.frag == i && b.dot == r.dots[i] && b.Len() == l.len > 0 && |b.plain| <= r.Fs())
  }

  ghost predicate RecIn(view: Cells, r: Rec) {
    && Shaped(r)
    && (forall i | 0 <= i < |r.locs| :: FragIn(view, r, i))
    && (forall i, j | 0 <= i < j < |r.locs| && !r.locs[i].Hole() && !r.locs[j].Hole() ::
        r.locs[i].addr != r.locs[j].addr)
  }

  /** What decrypting the fragment gives at offset o, ignoring the logical length. */
  ghost function StoredByte(view: Cells, r: Rec, i: nat, o: nat): Byte
    requires Shaped(r) && i < |r.locs| && FragIn(view, r, i)
  {
    if r.locs[i].Hole() then 0
    else var p := view[r.locs[i].addr].b.plain; if o < |p| then p[o] else 0
  }

  /** The stream as a reader sees it, below its size. */
  ghost function ByteAt(view: Cells, r: Rec, p: nat): Byte
    requires RecIn(view, r)
  {
    var i := Quot(p, r.Fs());
    if i < |r.locs| then StoredByte(view, r, i, Rem(p, r.Fs())) else 0
  }

  /**
   Position i * fragment size + o of a stream is byte o of what was sealed for fragment i; holes and ends read
   zero.
   */
  lemma ByteAtIs(view: Cells, r: Rec, i: nat, o: nat)
    requires RecIn(view, r) && o < r.Fs()
    ensures i >= |r.locs| ==> ByteAt(view, r, i * r.Fs() + o) == 0
    ensures i < |r.locs| && r.locs[i] == Loc(0, 0) ==> ByteAt(view, r, i * r.Fs() + o) == 0
    ensures i < |r.locs| && r.locs[i] != Loc(0, 0) ==>
      && r.locs[i].addr in view && view[r.locs[i].addr].Slot?
      && var sealed := view[r.locs[i].addr].b.plain;
      ByteAt(view, r, i * r.Fs() + o) == if o < |sealed| then sealed[o] else 0
  {
    hide Pow2, Quot, Rem, Blob.Len;
    Unique(Times(i, r.Fs()) + o, r.Fs(), i, o);
    if i < |r.locs| { assert FragIn(view, r, i); }
  }

  lemma SizeFrags(r: Rec)
    requires Shaped(r)
    ensures Frags(r.Size(), r.Fs()) == |r.locs|
    ensures r.locs != [] ==> r.last == LastLen(r.Size(), r.Fs())
  {
    hide Times, Quot, Rem, Pow2;
    var fs, n := r.Fs(), |r.locs|;
    TimesSucc(0, fs);
    if r.locs == [] {
      Unique(fs - 1, fs, 0, fs - 1);
    } else {
      TimesSucc(n - 1, fs);
      Unique(r.Size() + fs - 1, fs, n, r.last - 1);
      if r.last == fs { Unique(r.Size(), fs, n, 0); } else { Unique(r.Size(), fs, n - 1, r.last); }
    }
  }

  /** The logical length of fragment i. */
  function Logical(r: Rec, i: nat): nat
    requires i < |r.locs|
  {
    if i == |r.locs| - 1 then r.last else r.Fs()
  }

  datatype Got = Bytes(plain: seq<Byte>) | OutOfRange

  /** Decrypts one fragment to its logical length: cut if longer, zero-filled if shorter or a hole. */
  method ReadFrag(io: ContentIo, r: Rec, i: nat) returns (g: Got)
    requires io.Valid() && RecIn(io.view, r)
    ensures i >= |r.locs| ==> g == OutOfRange
    ensures i < |r.locs| ==>
        g.Bytes? && |g.plain| == Logical(r, i) && forall o | 0 <= o < |g.plain| ::
          g.plain[o] == StoredByte(io.view, r, i, o)
    ensures i < |r.locs| && g.Bytes? && (r.locs[i].addr != 0 || r.locs[i].len != 0) ==>
        && r.locs[i].addr in io.view && io.view[r.locs[i].addr].Slot?
        && var sealed := io.view[r.locs[i].addr].b.plain;
        forall o | 0 <= o < |g.plain| :: g.plain[o] == if o < |sealed| then sealed[o] else 0
    ensures i < |r.locs| && g.Bytes? && r.locs[i].addr == 0 && r.locs[i].len == 0 ==>
        forall o | 0 <= o < |g.plain| :: g.plain[o] == 0
  {
    if i >= |r.locs| { return OutOfRange; }
    var logical := Logical(r, i);
    var l := r.locs[i];
    assert FragIn(io.view, r, i);
    if l.addr == 0 && l.len == 0 { return Bytes(seq(logical, _ => 0)); }
    InNow(io.dev, io.live, io.saved, io.active, io.view, io.fa.Abs().used, l.addr);
    var b := io.dev.now[l.addr].b;
    var copy := if |b.plain| < logical then |b.plain| else logical;
    g := Bytes(b.plain[..copy] + seq(logical - copy, _ => 0));
  }

  // ---------------------------------------------------------------- one dirty fragment

  /** The whole new plaintext of a touched fragment, and how many commits pin its old version. */
  datatype Dirty = Dirty(frag: nat, plain: seq<Byte>, pins: nat)

  /** The write side's parameters: writer, current suite, whether short fragments are padded, drain threshold. */
  datatype Writer = Writer(alias: VV.U16, suite: Suite, pad: bool, batch: nat)

  function Zeros(n: nat): seq<Byte> { seq(n, _ => 0) }

  /** What is sealed for a fragment of logical length n: padded to the fragment, or to the XTS minimum. */
  function Padded(w: Writer, plain: seq<Byte>, n: nat, fs: nat): (r: seq<Byte>)
    requires n <= |plain| && 0 < n <= fs && fs >= 16
    ensures n <= |r| <= fs && r[..n] == plain[..n] && forall o | n <= o < |r| :: r[o] == 0
    ensures |r| == if w.pad then fs else if w.suite.Xts? && n < 16 then 16 else n
  {
    if w.pad && n < fs then plain[..n] + Zeros(fs - n)
    else if w.suite.Xts? && n < 16 then plain[..n] + Zeros(16 - n)
    else plain[..n]
  }

  /** A committed slot may be overwritten where it is: whole blocks before and after, same footprint. */
  predicate Reusable(l: Loc, b: Blob) {
    !l.Hole() && !(0 < b.Len() < BLOCK) && l.len >= BLOCK && F.RoundUp(l.len) == F.RoundUp(b.Len())
  }

  /** The slot of the previous version, as the record says and not scheduled for overwriting. */
  ghost predicate Waits(view: Cells, l: Loc, pend: seq<Pending>) {
    !l.Hole() ==>
      && l.addr > 0 && l.addr in view && view[l.addr].Slot? && view[l.addr].b.Len() == l.len
      && forall i | 0 <= i < |pend| :: pend[i].addr != l.addr
  }

  /** No image of this slot has been made in this scope yet, or none is needed. */
  ghost predicate FirstTime(io: ContentIo, l: Loc)
    reads io
  {
    l.Hole() || l.addr !in io.live || l.addr !in io.saved
  }

  /** Everything the new view had is still there except slot a. */
  ghost predicate Extends(g: Cells, g': Cells, a: nat) {
    forall x | x in g && x != a :: x in g' && g'[x] == g[x]
  }

  /** The undo image goes to the tail at once; the overwrite waits. */
  method Reuse(io: ContentIo, l: Loc, b: Blob, pins: nat, pend: seq<Pending>, ghost tags: seq<nat>)
    returns (ok: bool, ghost t: nat)
    requires io.Valid() && Ready(io.live, io.saved, io.active, io.view, pend, tags) && Waits(io.view, l, pend)
        && Reusable(l, b) && b.Len() > 0
    modifies io`dev, io`view, io`ws, io`es, io.fa
    ensures io.Valid() && Logged(old(io.ws), old(io.es), io.ws, io.es, FirstTime(io, l))
    ensures !ok ==> io.view == old(io.view) && old(io.Gap()) < 4168 + 16 * pins + l.len
    ensures io.Gap() >= old(io.Gap()) - (4168 + 16 * pins + l.len)
    ensures ok ==>
      && Ready(io.live, io.saved, io.active, io.view, pend + [Pending(l.addr, b)], tags + [t])
      && Extends(Goal(old(io.view), pend), Goal(io.view, pend + [Pending(l.addr, b)]), l.addr)
      && l.addr in Goal(io.view, pend + [Pending(l.addr, b)])
          && Goal(io.view, pend + [Pending(l.addr, b)])[l.addr] == Slot(b)
  {
    hide ContentIo.Valid, Goal, Ready, Logged;
    ghost var c := Image(l.addr, io.active + 1, pins, io.view[l.addr].b);
    FirstCopy(io, l);
    var img := io.Evict(l.addr, pins, true);
    LoggedLess(old(io.ws), old(io.es), io.ws, io.es, l.addr !in io.live || l.addr !in io.saved
        || img < io.saved[l.addr], FirstTime(io, l));
    ok, t := img != 0, img;
    if ok {
      SameSpan(l, b, old(io.view)[l.addr].b);
      ReadyMore(io.live, io.saved, io.active, old(io.view), pend, tags, Pending(l.addr, b), img, c);
      ReadyPlace(io.live, io.saved, io.active, old(io.view), pend, tags, img, c);
      GoalStep(io.view, pend, Pending(l.addr, b));
    }
  }

  /** Before its first image in the scope, a committed slot still holds its committed bytes. */
  lemma FirstCopy(io: ContentIo, l: Loc)
    requires io.Valid() && !l.Hole() && l.addr in io.view
    ensures l.addr in io.live && l.addr !in io.saved ==> io.view[l.addr] == Slot(io.live[l.addr])
  {
    hide Cell.Span, F.Falloc.Valid, Trail, Seen;
    if l.addr in io.live && l.addr !in io.saved { assert Whole(io.dev, l.addr, io.live[l.addr]); }
  }

  lemma SameSpan(l: Loc, b: Blob, was: Blob)
    requires Reusable(l, b) && b.Len() > 0 && was.Len() == l.len
    ensures SlotSpan(b) == SlotSpan(was)
  {}

  lemma ReadyMore(live: Live, saved: map<nat, nat>, active: nat, view: Cells, pend: seq<Pending>, tags: seq<nat>,
                  p: Pending, t: nat, c: Cell)
    requires Ready(live, saved, active, view, pend, tags) && t !in view
    requires p.addr in view && view[p.addr].Slot? && SlotSpan(p.b) == view[p.addr].Span() && ImageFor(c, active, p.addr)
    requires p.addr in live && p.addr !in saved ==> c.was == live[p.addr]
    requires forall i | 0 <= i < |pend| :: pend[i].addr != p.addr
    ensures Ready(live, saved, active, view[t := c], pend + [p], tags + [t])
  {
    hide Cell.Span;
    var view', pend', tags' := view[t := c], pend + [p], tags + [t];
    forall i | 0 <= i < |pend'| ensures Backed(live, saved, active, view', pend'[i], tags'[i])
    {
      if i < |pend| { assert Backed(live, saved, active, view, pend[i], tags[i]); }
    }
  }

  lemma GoalStep(view: Cells, pend: seq<Pending>, p: Pending)
    ensures Goal(view, pend + [p]) == Goal(view, pend)[p.addr := Slot(p.b)]
  {
    assert (pend + [p])[..|pend|] == pend;
  }

  /** The committed ciphertext at a lies in the tail as plain history, with its pins. */
  ghost predicate Tailed(v0: Cells, v: Cells, a: nat, pins: nat) {
    a in v0 && exists t :: t in v && t !in v0 && IsCopy(v, t, v0[a], pins)
  }

  ghost predicate IsCopy(v: Cells, t: nat, c: Cell, pins: nat)
    requires t in v
  {
    c.Slot? && v[t] == Image(0, 0, pins, c.b)
  }

  /** Gap enough to store b over location l. */
  ghost function Cost(l: Loc, b: Blob, pins: nat): nat {
    b.Len() + 4096 + (if l.Hole() then 0 else 4168 + 16 * pins + l.len)
  }

  /** Fresh placement; a predecessor is copied to the tail as history. */
  method Relocate(io: ContentIo, l: Loc, b: Blob, pins: nat, pend: seq<Pending>, ghost tags: seq<nat>) returns (a: nat)
    requires io.Valid() && Ready(io.live, io.saved, io.active, io.view, pend, tags) && Waits(io.view, l, pend)
        && b.Len() > 0
    modifies io`dev, io`view, io`ws, io`es, io.fa
    ensures io.Valid() && Logged(old(io.ws), old(io.es), io.ws, io.es, true)
    ensures a != 0 ==>
      && Ready(io.live, io.saved, io.active, io.view, pend, tags)
      && a !in Goal(old(io.view), pend) && Extends(Goal(old(io.view), pend), Goal(io.view, pend), a)
      && a in Goal(io.view, pend) && Goal(io.view, pend)[a] == Slot(b)
    ensures a != 0 && !l.Hole() ==> Tailed(old(io.view), io.view, l.addr, pins)
    ensures io.Gap() >= old(io.Gap()) - Cost(l, b, pins) && (a == 0 ==> old(io.Gap()) < Cost(l, b, pins))
  {
    hide ContentIo.Valid, Goal, Ready, Logged;
    ghost var v0, ws0, es0 := io.view, io.ws, io.es;
    assert Logged(ws0, es0, ws0, es0, true) by { NothingLogged(io); }
    if !l.Hole() {
      var t := io.Evict(l.addr, pins, false);
      if t == 0 { return 0; }
      ReadyPlace(io.live, io.saved, io.active, v0, pend, tags, t, io.view[t]);
      assert IsCopy(io.view, t, v0[l.addr], pins);
    }
    ghost var v1, ws1, es1 := io.view, io.ws, io.es;
    a := io.Place(b);
    LoggedTwice(ws0, es0, ws1, es1, io.ws, io.es, true);
    if a != 0 {
      assert forall t | t in v1 && t !in v0 && !l.Hole() && IsCopy(v1, t, v0[l.addr], pins) ::
          IsCopy(io.view, t, v0[l.addr], pins);
      ReadyPlace(io.live, io.saved, io.active, v1, pend, tags, a, Slot(b));
    }
  }

  lemma NothingLogged(io: ContentIo)
    requires io.Valid()
    ensures Logged(io.ws, io.es, io.ws, io.es, true) && Logged(io.ws, io.es, io.ws, io.es, false)
  {
    LoggedNone(io.ws, io.es, Now(io.dev, io.live, io.active, io.view));
  }

  /** Placing a fresh cell changes neither the pending overwrites nor what they will leave. */
  lemma ReadyPlace(live: Live, saved: map<nat, nat>, active: nat, view: Cells, pend: seq<Pending>, tags: seq<nat>,
      t: nat, c: Cell)
    requires Ready(live, saved, active, view, pend, tags) && t !in view
    ensures Ready(live, saved, active, view[t := c], pend, tags)
    ensures t !in Goal(view, pend) && Goal(view[t := c], pend) == Goal(view, pend)[t := c]
  {
    hide Cell.Span, Goal;
    forall i | 0 <= i < |pend| ensures Backed(live, saved, active, view[t := c], pend[i], tags[i]) && pend[i].addr != t
    {
      assert Backed(live, saved, active, view, pend[i], tags[i]);
    }
    GoalKeeps(view, pend, t);
    GoalPlace(view, pend, t, c);
  }

  /** Stores one sealed fragment: in place behind the barrier where allowed, at a fresh address otherwise. */
  method PutFrag(io: ContentIo, w: Writer, l: Loc, b: Blob, pins: nat, pend0: seq<Pending>, bytes0: nat,
      ghost tags0: seq<nat>)
    returns (a: nat, pend: seq<Pending>, bytes: nat, ghost tags: seq<nat>)
    requires io.Valid() && Ready(io.live, io.saved, io.active, io.view, pend0, tags0) && Waits(io.view, l, pend0)
        && b.Len() > 0
    modifies io`dev, io`view, io`saved, io`ws, io`es, io.fa
    ensures io.Valid() && Logged(old(io.ws), old(io.es), io.ws, io.es, old(FirstTime(io, l)))
    ensures a != 0 ==>
      && Ready(io.live, io.saved, io.active, io.view, pend, tags)
      && var g, g' := Goal(old(io.view), pend0), Goal(io.view, pend);
      && a in g' && g'[a] == Slot(b) && Extends(g, g', a) && (a !in g || (!l.Hole() && a == l.addr))
    ensures a != 0 ==>
      && (forall x | Among(pend, x) :: Among(pend0, x) || (!l.Hole() && x == l.addr))
      && (forall x | x in io.saved :: x in old(io.saved) || Among(pend0, x) || (!l.Hole() && x == l.addr))
    ensures a != 0 && !l.Hole() && a != l.addr ==> Tailed(old(io.view), io.view, l.addr, pins)
    ensures a != 0 && !l.Hole() ==>
              (a == l.addr <==> l.len >= 4096 && b.Len() >= 4096 && F.RoundUp(l.len) == F.RoundUp(b.Len()))
    ensures io.Gap() >= old(io.Gap()) - Cost(l, b, pins) && (a == 0 ==> old(io.Gap()) < Cost(l, b, pins))
  {
    hide ContentIo.Valid, Goal, Ready, Tailed, Logged;
    pend, bytes, tags := pend0, bytes0, tags0;
    ghost var ws0, es0, first := io.ws, io.es, FirstTime(io, l);
    if Reusable(l, b) {
      var ok;
      ghost var t;
      ok, t := Reuse(io, l, b, pins, pend0, tags0);
      if !ok { a := 0; return; }
      a, pend, bytes, tags := l.addr, pend0 + [Pending(l.addr, b)], bytes0 + b.Len(), tags0 + [t];
      AmongMore(pend0, Pending(l.addr, b));
      if bytes >= w.batch {
        ghost var ws1, es1 := io.ws, io.es;
        io.FlushApply(pend, tags);
        LoggedLess(ws1, es1, io.ws, io.es, true, first);
        LoggedTwice(ws0, es0, ws1, es1, io.ws, io.es, first);
        NoneReady(io.live, io.saved, io.active, io.view);
        pend, bytes, tags := [], 0, [];
      }
    } else {
      WaitsInGoal(io.view, l, pend0);
      a := Relocate(io, l, b, pins, pend0, tags0);
      LoggedLess(ws0, es0, io.ws, io.es, true, first);
    }
  }

  lemma AmongMore(pend: seq<Pending>, p: Pending)
    ensures forall x :: Among(pend + [p], x) <==> Among(pend, x) || x == p.addr
  {
    forall x ensures Among(pend + [p], x) <==> Among(pend, x) || x == p.addr
    {
      assert (pend + [p])[|pend|] == p;
      if Among(pend, x) { var i :| 0 <= i < |pend| && pend[i].addr == x; assert (pend + [p])[i].addr == x; }
      if Among(pend + [p], x) { var i :| 0 <= i < |pend| + 1 && (pend + [p])[i].addr == x; if i < |pend|
          { assert pend[i].addr == x; } }
    }
  }

  lemma NoneReady(live: Live, saved: map<nat, nat>, active: nat, view: Cells)
    ensures Ready(live, saved, active, view, [], []) && Goal(view, []) == view
  {}

  // ---------------------------------------------------------------- the fold

  /** The fragment tables of the record being built. */
  datatype Tables = Tables(dots: seq<nat>, locs: seq<Loc>, suites: seq<Suite>) {
    predicate Of(n: nat) { |dots| == |locs| == |suites| == n }
  }

  /** The kept prefix, then holes under the current suite. */
  function Carried(r: Rec, keep: nat, n: nat, cc: Suite): (t: Tables)
    requires Shaped(r) && keep <= |r.locs|
    ensures t.Of(n)
  {
    Tables(seq(n, i requires 0 <= i < n => if i < keep then r.dots[i] else 0),
           seq(n, i requires 0 <= i < n => if i < keep then r.locs[i] else Loc(0, 0)),
           seq(n, i requires 0 <= i < n => if i < keep then r.SuiteOf(i) else cc))
  }

  /**
   Where the build stands once the fragments in `done` have been sealed; g is the view after the pending
   overwrites.
   */
  ghost predicate Built(g: Cells, v0: Cells, r: Rec, init: Tables, t: Tables, n: nat, done: map<nat, Blob>, dot: nat,
      cc: Suite) {
    init.Of(n) && t.Of(n) && Same(init, t, n, done) && AllSealed(g, t, n, done, dot, cc) && Kept(g, v0, r, done)
        && Separate(t, n, r, done)
  }

  ghost predicate Same(init: Tables, t: Tables, n: nat, done: map<nat, Blob>)
    requires init.Of(n) && t.Of(n)
  {
    forall i | 0 <= i < n && i !in done ::
        t.dots[i] == init.dots[i] && t.locs[i] == init.locs[i] && t.suites[i] == init.suites[i]
  }

  ghost predicate AllSealed(g: Cells, t: Tables, n: nat, done: map<nat, Blob>, dot: nat, cc: Suite)
    requires t.Of(n)
  {
    forall i | i in done :: i < n && Sealed(g, t, n, i, done[i], dot, cc)
  }

  /** Fragments not rewritten still have the ciphertext they had in v0. */
  ghost predicate Kept(g: Cells, v0: Cells, r: Rec, done: map<nat, Blob>) {
    forall k | 0 <= k < |r.locs| && k !in done && !r.locs[k].Hole() ::
      r.locs[k].addr in v0 && r.locs[k].addr in g && g[r.locs[k].addr] == v0[r.locs[k].addr]
  }

  ghost predicate Separate(t: Tables, n: nat, r: Rec, done: map<nat, Blob>)
    requires t.Of(n)
  {
    && (forall i, k | i in done && 0 <= i < n && 0 <= k < |r.locs| && k !in done && !r.locs[k].Hole() ::
        t.locs[i].addr != r.locs[k].addr)
    && (forall i, j | i in done && j in done && i != j && 0 <= i < n && 0 <= j < n :: t.locs[i].addr != t.locs[j].addr)
  }

  ghost predicate Sealed(g: Cells, t: Tables, n: nat, i: nat, b: Blob, dot: nat, cc: Suite)
    requires t.Of(n) && i < n
  {
    && t.dots[i] == dot && t.suites[i] == cc && t.locs[i] == Loc(t.locs[i].addr, b.Len()) && t.locs[i].addr > 0
        && b.Len() > 0
    && t.locs[i].addr in g && g[t.locs[i].addr] == Slot(b) && b.suite == cc && b.frag == i && b.dot == dot
  }

  ghost predicate Distinct(r: Rec) {
    forall i, j | 0 <= i < j < |r.locs| && !r.locs[i].Hole() && !r.locs[j].Hole() :: r.locs[i].addr != r.locs[j].addr
  }

  ghost function Recorded(t: Tables, n: nat, f: nat, dot: nat, a: nat, len: nat, cc: Suite): (t': Tables)
    requires t.Of(n) && f < n
    ensures t'.Of(n)
  {
    Tables(t.dots[f := dot], t.locs[f := Loc(a, len)], t.suites[f := cc])
  }

  /** Fragment f at a: either a fresh address or the fragment's own old slot. */
  ghost predicate Own(g: Cells, r: Rec, f: nat, a: nat) {
    a !in g || (f < |r.locs| && !r.locs[f].Hole() && a == r.locs[f].addr)
  }

  /** No fragment sealed earlier and no other committed fragment lives at a. */
  lemma Unshared(g: Cells, v0: Cells, r: Rec, t: Tables, n: nat, done: map<nat, Blob>, dot: nat, cc: Suite, f: nat,
      a: nat)
    requires t.Of(n) && AllSealed(g, t, n, done, dot, cc) && Kept(g, v0, r, done) && Separate(t, n, r, done)
        && Distinct(r)
    requires f < n && f !in done && Own(g, r, f, a)
    ensures forall i | i in done :: t.locs[i].addr != a
    ensures forall k | 0 <= k < |r.locs| && k !in done && k != f && !r.locs[k].Hole() :: r.locs[k].addr != a
  {
    hide Blob.Len;
    forall i | i in done ensures t.locs[i].addr != a { assert Sealed(g, t, n, i, done[i], dot, cc); }
  }

  /** Recording fragment f at a keeps everything built so far. */
  lemma BuiltStep(g: Cells, g': Cells, v0: Cells, r: Rec, init: Tables, t: Tables, n: nat, done: map<nat, Blob>,
      dot: nat, cc: Suite,
                  f: nat, b: Blob, a: nat)
    requires Built(g, v0, r, init, t, n, done, dot, cc) && Distinct(r)
    requires f < n && f !in done && a > 0 && b.Len() > 0 && b.suite == cc && b.frag == f && b.dot == dot
    requires a in g' && g'[a] == Slot(b) && Extends(g, g', a) && Own(g, r, f, a)
    ensures Built(g', v0, r, init, Recorded(t, n, f, dot, a, b.Len(), cc), n, done[f := b], dot, cc)
  {
    hide Blob.Len, Distinct, Own;
    Unshared(g, v0, r, t, n, done, dot, cc, f, a);
    var t' := Recorded(t, n, f, dot, a, b.Len(), cc);
    assert Same(init, t', n, done[f := b]);
    assert Kept(g', v0, r, done[f := b]);
    assert AllSealed(g', t', n, done[f := b], dot, cc) by {
      hide Kept, Separate, Same;
      forall i | i in done ensures Sealed(g', t', n, i, done[i], dot, cc)
          { assert Sealed(g, t, n, i, done[i], dot, cc); }
    }
  }

  /** Logical length of fragment f of a stream of the given size. */
  function FragLen(size: nat, fs: nat, f: nat): nat
    requires fs > 0 && f < Frags(size, fs)
  {
    FragStart(size, fs, f);
    if size - Times(f, fs) < fs then size - Times(f, fs) else fs
  }

  lemma FragStart(size: nat, fs: nat, f: nat)
    requires fs > 0 && f < Frags(size, fs)
    ensures Times(f, fs) < size
  {
    hide Times, Frags, LastLen;
    Geometry(size, fs);
    TimesLe(f, Frags(size, fs) - 1, fs);
  }

  ghost predicate IsStaged(dirty: seq<Dirty>, i: nat) { exists j :: 0 <= j < |dirty| && dirty[j].frag == i }

  /** Sorted, unique, inside the new geometry. */
  predicate Ordered(dirty: seq<Dirty>, n: nat) {
    forall j | 0 <= j < |dirty| :: dirty[j].frag < n && (j > 0 ==> dirty[j - 1].frag < dirty[j].frag)
  }

  lemma {:induction false} OrderedStrict(dirty: seq<Dirty>, n: nat, i: nat, j: nat)
    requires Ordered(dirty, n) && i < j < |dirty|
    ensures dirty[i].frag < dirty[j].frag
    decreases j
  {
    if i < j - 1 { OrderedStrict(dirty, n, i, j - 1); }
  }

  /** Every staged buffer covers its fragment's logical length. */
  ghost predicate Covering(dirty: seq<Dirty>, size: nat, fs: nat)
    requires fs > 0
  {
    forall j | 0 <= j < |dirty| && dirty[j].frag < Frags(size, fs) ::
        |dirty[j].plain| >= FragLen(size, fs, dirty[j].frag)
  }

  function SealOf(w: Writer, d: Dirty, size: nat, fs: nat, dot: nat): (b: Blob)
    requires fs >= 16 && d.frag < Frags(size, fs) && |d.plain| >= FragLen(size, fs, d.frag)
    ensures b.Len() > 0 && b.suite == w.suite && b.frag == d.frag && b.dot == dot && |b.plain| <= fs
  {
    FragStart(size, fs, d.frag);
    Blob(w.suite, d.frag, dot, Padded(w, d.plain, FragLen(size, fs, d.frag), fs))
  }

  /** Which fragments have been sealed after the first m staged ones. */
  ghost predicate SealedUpTo(w: Writer, dirty: seq<Dirty>, size: nat, fs: nat, dot: nat, done: map<nat, Blob>, m: nat)
    requires fs >= 16 && Ordered(dirty, Frags(size, fs)) && Covering(dirty, size, fs) && m <= |dirty|
  {
    && (forall j | 0 <= j < m :: dirty[j].frag in done && done[dirty[j].frag] == SealOf(w, dirty[j], size, fs, dot))
    && (forall i | i in done :: IsStaged(dirty[..m], i))
  }

  lemma NotYet(dirty: seq<Dirty>, n: nat, m: nat)
    requires Ordered(dirty, n) && m < |dirty|
    ensures !IsStaged(dirty[..m], dirty[m].frag)
    ensures forall i | IsStaged(dirty[..m], i) :: IsStaged(dirty[..m + 1], i)
    ensures IsStaged(dirty[..m + 1], dirty[m].frag)
  {
    forall j | 0 <= j < m ensures dirty[j].frag != dirty[m].frag { OrderedStrict(dirty, n, j, m); }
    forall i | IsStaged(dirty[..m], i) ensures IsStaged(dirty[..m + 1], i)
    {
      var j :| 0 <= j < m && dirty[..m][j].frag == i;
      assert dirty[..m + 1][j].frag == i;
    }
    assert dirty[..m + 1][m].frag == dirty[m].frag;
  }

  /** Other slots keep waiting while fragment f is stored. */
  lemma StillWaits(view: Cells, view': Cells, pend: seq<Pending>, pend': seq<Pending>, l: Loc, own: Loc, a: nat)
    requires Waits(view, l, pend) && Extends(Goal(view, pend), Goal(view', pend'), a)
    requires !l.Hole() ==> (own.Hole() || l.addr != own.addr) && l.addr != a
    requires forall x | Among(pend', x) :: Among(pend, x) || (!own.Hole() && x == own.addr)
    ensures Waits(view', l, pend')
  {
    hide Goal;
    if !l.Hole() {
      assert !Among(pend, l.addr);
      assert !Among(pend', l.addr);
      GoalKeeps(view, pend, l.addr);
      GoalKeeps(view', pend', l.addr);
    }
  }

  /** All the fragments of r that have not been rewritten wait where the record says. */
  ghost predicate AllWait(view: Cells, r: Rec, done: map<nat, Blob>, pend: seq<Pending>) {
    forall k | 0 <= k < |r.locs| && k !in done :: Waits(view, r.locs[k], pend)
  }

  lemma AllStillWait(view: Cells, view': Cells, pend: seq<Pending>, pend': seq<Pending>, r: Rec, keep: nat,
      done: map<nat, Blob>, f: nat,
                     b: Blob, a: nat)
    requires AllWait(view, r, done, pend) && Extends(Goal(view, pend), Goal(view', pend'), a) && Distinct(r)
    requires Own(Goal(view, pend), r, f, a)
    requires var own := if f < keep && f < |r.locs| then r.locs[f] else Loc(0, 0);
             forall x | Among(pend', x) :: Among(pend, x) || (!own.Hole() && x == own.addr)
    ensures AllWait(view', r, done[f := b], pend')
  {
    hide Goal, Waits;
    var own := if f < keep && f < |r.locs| then r.locs[f] else Loc(0, 0);
    forall k | 0 <= k < |r.locs| && k !in done[f := b] ensures Waits(view', r.locs[k], pend')
    {
      WaitsInGoal(view, r.locs[k], pend);
      StillWaits(view, view', pend, pend', r.locs[k], own, a);
    }
  }

  lemma WaitsInGoal(view: Cells, l: Loc, pend: seq<Pending>)
    requires Waits(view, l, pend)
    ensures !l.Hole() ==> l.addr in Goal(view, pend)
  {
    hide Goal;
    if !l.Hole() { GoalKeeps(view, pend, l.addr); }
  }

  /** Slots of r still to be rewritten have not been imaged in this scope. */
  ghost predicate AllFirst(live: Live, saved: map<nat, nat>, r: Rec, done: map<nat, Blob>) {
    forall k | 0 <= k < |r.locs| && k !in done && !r.locs[k].Hole() && r.locs[k].addr in live ::
        r.locs[k].addr !in saved
  }

  lemma AllStillFirst(live: Live, saved: map<nat, nat>, saved': map<nat, nat>, view: Cells, r: Rec, keep: nat,
      done: map<nat, Blob>,
                      pend: seq<Pending>, f: nat, b: Blob)
    requires AllFirst(live, saved, r, done) && AllWait(view, r, done, pend) && Distinct(r)
    requires var own := if f < keep && f < |r.locs| then r.locs[f] else Loc(0, 0);
             forall x | x in saved' :: x in saved || Among(pend, x) || (!own.Hole() && x == own.addr)
    ensures AllFirst(live, saved', r, done[f := b])
  {
    forall k | 0 <= k < |r.locs| && k !in done[f := b] && !r.locs[k].Hole()
        && r.locs[k].addr in live ensures r.locs[k].addr !in saved'
    {
      assert Waits(view, r.locs[k], pend);
    }
  }

  /** Every slot of the record is either uncommitted or untouched in this scope. */
  ghost predicate FirstTouch(io: ContentIo, r: Rec)
    reads io
  {
    AllFirst(io.live, io.saved, r, map[])
  }

  /** The pending overwrites are backed, the finished fragments recorded, the others wait. */
  ghost predicate Sealing(live: Live, saved: map<nat, nat>, active: nat, view: Cells, v0: Cells, r: Rec, init: Tables,
      t: Tables, n: nat,
                          done: map<nat, Blob>, dot: nat, cc: Suite, pend: seq<Pending>, tags: seq<nat>) {
    Ready(live, saved, active, view, pend, tags) && t.Of(n)
        && Built(Goal(view, pend), v0, r, init, t, n, done, dot, cc) && AllWait(view, r, done, pend)
  }

  /** Stores and records fragment f. */
  method SealOne(io: ContentIo, w: Writer, r: Rec, keep: nat, f: nat, b: Blob, pins: nat, t0: Tables, n: nat,
      pend0: seq<Pending>, bytes0: nat,
                 ghost tags0: seq<nat>, ghost v0: Cells, ghost init: Tables, ghost done: map<nat, Blob>)
    returns (ok: bool, t: Tables, pend: seq<Pending>, bytes: nat, ghost tags: seq<nat>)
    requires io.Valid() && keep <= |r.locs| && Distinct(r) && f < n && f !in done && b.Len() > 0 && b.suite == w.suite
        && b.frag == f
    requires Sealing(io.live, io.saved, io.active, io.view, v0, r, init, t0, n, done, b.dot, w.suite, pend0, tags0)
    modifies io`dev, io`view, io`saved, io`ws, io`es, io.fa
    ensures io.Valid() && Logged(old(io.ws), old(io.es), io.ws, io.es, old(AllFirst(io.live, io.saved, r, done)))
    ensures ok ==> Sealing(io.live, io.saved, io.active, io.view, v0, r, init, t, n, done[f := b], b.dot, w.suite, pend,
        tags)
    ensures ok && old(AllFirst(io.live, io.saved, r, done)) ==> AllFirst(io.live, io.saved, r, done[f := b])
    ensures var c := Cost(if f < keep then r.locs[f] else Loc(0, 0), b, pins);
            io.Gap() >= old(io.Gap()) - c && (!ok ==> old(io.Gap()) < c)
  {
    hide ContentIo.Valid, Goal, Ready, Waits, Built, Own, Extends, AllWait, AllFirst, Distinct, Blob.Len, Logged, Among,
        Cost;
    var l := if f < keep then r.locs[f] else Loc(0, 0);
    ghost var v, s, once, first := io.view, io.saved, FirstTime(io, l), AllFirst(io.live, io.saved, r, done);
    assert Waits(io.view, l, pend0) by { WaitsAt(io.view, r, done, pend0, f, keep); }
    assert first ==> once by { FirstAt(io, r, done, f, keep); }
    t := t0;
    var a;
    a, pend, bytes, tags := PutFrag(io, w, l, b, pins, pend0, bytes0, tags0);
    LoggedLess(old(io.ws), old(io.es), io.ws, io.es, once, first);
    ok := a != 0;
    if ok {
      assert Own(Goal(v, pend0), r, f, a) by { OwnHere(Goal(v, pend0), r, f, a, keep, l); }
      BuiltStep(Goal(v, pend0), Goal(io.view, pend), v0, r, init, t0, n, done, b.dot, w.suite, f, b, a);
      AllStillWait(v, io.view, pend0, pend, r, keep, done, f, b, a);
      if first { AllStillFirst(io.live, s, io.saved, v, r, keep, done, pend0, f, b); }
      t := Tables(t0.dots[f := b.dot], t0.locs[f := Loc(a, b.Len())], t0.suites[f := w.suite]);
    }
  }

  /** Gap enough to seal the staged fragments over fragments of the same size. */
  ghost function FoldNeed(dirty: seq<Dirty>, fs: nat): nat {
    if dirty == [] then 0
    else FoldNeed(dirty[..|dirty| - 1], fs) + 2 * fs + 16 * dirty[|dirty| - 1].pins + 8296
  }

  lemma {:induction false} FoldNeedMono(dirty: seq<Dirty>, fs: nat, n: nat)
    requires n <= |dirty|
    ensures FoldNeed(dirty[..n], fs) <= FoldNeed(dirty, fs)
    decreases |dirty|
  {
    if n == |dirty| {
      assert dirty[..n] == dirty;
    } else {
      assert dirty[..|dirty| - 1][..n] == dirty[..n];
      FoldNeedMono(dirty[..|dirty| - 1], fs, n);
    }
  }

  lemma NeedNone(fs: nat)
    ensures FoldNeed([], fs) == 0
  {}

  ghost predicate NoLonger(r: Rec, n: nat) { forall k | 0 <= k < |r.locs| :: r.locs[k].len <= n }

  lemma NeedStep(dirty: seq<Dirty>, fs: nat, d: nat, r: Rec, keep: nat, b: Blob)
    requires d < |dirty| && keep <= |r.locs| && NoLonger(r, fs + 16) && |b.plain| <= fs
    ensures var f := dirty[d].frag;
            Cost(if f < keep then r.locs[f] else Loc(0, 0), b, dirty[d].pins)
              <= FoldNeed(dirty[..d + 1], fs) - FoldNeed(dirty[..d], fs)
    ensures FoldNeed(dirty[..d + 1], fs) <= FoldNeed(dirty, fs)
  {
    assert dirty[..d + 1][..d] == dirty[..d];
    FoldNeedMono(dirty, fs, d + 1);
  }

  lemma ReadableShort(view: Cells, r: Rec)
    requires RecIn(view, r)
    ensures NoLonger(r, r.Fs() + 16)
  {
    hide Pow2;
    forall k | 0 <= k < |r.locs| ensures r.locs[k].len <= r.Fs() + 16 { assert FragIn(view, r, k); }
  }

  lemma SealedNone(w: Writer, dirty: seq<Dirty>, size: nat, fs: nat, dot: nat)
    requires fs >= 16 && Ordered(dirty, Frags(size, fs)) && Covering(dirty, size, fs)
    ensures SealedUpTo(w, dirty, size, fs, dot, map[], 0)
  {}

  lemma NotSealed(w: Writer, dirty: seq<Dirty>, size: nat, fs: nat, dot: nat, done: map<nat, Blob>, d: nat)
    requires fs >= 16 && Ordered(dirty, Frags(size, fs)) && Covering(dirty, size, fs) && d < |dirty|
    requires SealedUpTo(w, dirty, size, fs, dot, done, d)
    ensures dirty[d].frag !in done
  {
    hide SealOf, Frags, FragLen;
    NotYet(dirty, Frags(size, fs), d);
  }

  lemma SealedNext(w: Writer, dirty: seq<Dirty>, size: nat, fs: nat, dot: nat, done: map<nat, Blob>, d: nat)
    requires fs >= 16 && Ordered(dirty, Frags(size, fs)) && Covering(dirty, size, fs) && d < |dirty|
    requires SealedUpTo(w, dirty, size, fs, dot, done, d)
    ensures var b := SealOf(w, dirty[d], size, fs, dot);
            SealedUpTo(w, dirty, size, fs, dot, done[dirty[d].frag := b], d + 1)
  {
    hide SealOf, Frags, FragLen;
    NotYet(dirty, Frags(size, fs), d);
  }

  /** Seals every staged fragment, then drains the deferred overwrites. */
  method SealAll(io: ContentIo, w: Writer, r: Rec, size: nat, fs: nat, keep: nat, dirty: seq<Dirty>, dot: nat,
      init: Tables)
    returns (ok: bool, t: Tables, ghost done: map<nat, Blob>)
    requires io.Valid() && fs >= 16 && Ordered(dirty, Frags(size, fs)) && Covering(dirty, size, fs)
    requires init.Of(Frags(size, fs)) && keep <= |r.locs| && Distinct(r)
    requires AllWait(io.view, r, map[], []) && Kept(io.view, io.view, r, map[]) && NoLonger(r, fs + 16)
    modifies io`dev, io`view, io`saved, io`ws, io`es, io.fa
    ensures io.Valid() && Logged(old(io.ws), old(io.es), io.ws, io.es, old(FirstTouch(io, r)))
    ensures !ok ==> old(io.Gap()) < FoldNeed(dirty, fs)
    ensures ok ==>
      && Built(io.view, old(io.view), r, init, t, Frags(size, fs), done, dot, w.suite)
      && SealedUpTo(w, dirty, size, fs, dot, done, |dirty|)
  {
    hide ContentIo.Valid, SealOf, Frags, FragLen, Sealing, AllFirst, Distinct, Blob.Len, Logged, Goal, Ready, AllWait,
        Built, Kept, Cost, FoldNeed, NoLonger, SealedUpTo;
    var n := Frags(size, fs);
    var pend, bytes := [], 0;
    ghost var tags: seq<nat> := [];
    ghost var v0, ws0, es0, first := io.view, io.ws, io.es, FirstTouch(io, r);
    t, ok, done := init, true, map[];
    SealingNone(io.live, io.saved, io.active, io.view, r, init, n, dot, w.suite);
    NothingLogged(io);
    SealedNone(w, dirty, size, fs, dot);
    assert dirty[..0] == [] && FoldNeed([], fs) == 0 by { NeedNone(fs); }
    var d := 0;
    while d < |dirty|
      invariant 0 <= d <= |dirty| && io.Valid() && t.Of(n) && SealedUpTo(w, dirty, size, fs, dot, done, d)
      invariant Sealing(io.live, io.saved, io.active, io.view, v0, r, init, t, n, done, dot, w.suite, pend, tags)
      invariant Logged(ws0, es0, io.ws, io.es, first) && (first ==> AllFirst(io.live, io.saved, r, done))
      invariant io.Gap() >= old(io.Gap()) - FoldNeed(dirty[..d], fs)
    {
      var f := dirty[d].frag;
      var b := SealOf(w, dirty[d], size, fs, dot);
      NotSealed(w, dirty, size, fs, dot, done, d);
      NeedStep(dirty, fs, d, r, keep, b);
      ghost var ws1, es1, one := io.ws, io.es, AllFirst(io.live, io.saved, r, done);
      ok, t, pend, bytes, tags := SealOne(io, w, r, keep, f, b, dirty[d].pins, t, n, pend, bytes, tags, v0, init, done);
      LoggedLess(ws1, es1, io.ws, io.es, one, first);
      LoggedTwice(ws0, es0, ws1, es1, io.ws, io.es, first);
      if !ok { return; }
      SealingOf(io.live, io.saved, io.active, io.view, v0, r, init, t, n, done[f := b], dot, w.suite, pend, tags);
      SealedNext(w, dirty, size, fs, dot, done, d);
      done := done[f := b];
      d := d + 1;
    }
    assert dirty[..d] == dirty;
    SealingOf(io.live, io.saved, io.active, io.view, v0, r, init, t, n, done, dot, w.suite, pend, tags);
    ghost var ws1, es1 := io.ws, io.es;
    io.FlushApply(pend, tags);
    LoggedLess(ws1, es1, io.ws, io.es, true, first);
    LoggedTwice(ws0, es0, ws1, es1, io.ws, io.es, first);
    ok := true;
  }

  lemma SealingNone(live: Live, saved: map<nat, nat>, active: nat, view: Cells, r: Rec, init: Tables, n: nat, dot: nat,
      cc: Suite)
    requires init.Of(n) && AllWait(view, r, map[], []) && Kept(view, view, r, map[])
    ensures Sealing(live, saved, active, view, view, r, init, init, n, map[], dot, cc, [], [])
  {
    NoneReady(live, saved, active, view);
    BuiltNone(view, view, r, init, n, dot, cc);
  }

  lemma SealingOf(live: Live, saved: map<nat, nat>, active: nat, view: Cells, v0: Cells, r: Rec, init: Tables,
      t: Tables, n: nat,
                  done: map<nat, Blob>, dot: nat, cc: Suite, pend: seq<Pending>, tags: seq<nat>)
    requires Sealing(live, saved, active, view, v0, r, init, t, n, done, dot, cc, pend, tags)
    ensures t.Of(n) && Ready(live, saved, active, view, pend, tags)
        && Built(Goal(view, pend), v0, r, init, t, n, done, dot, cc)
  {}

  lemma FirstAt(io: ContentIo, r: Rec, done: map<nat, Blob>, f: nat, keep: nat)
    requires keep <= |r.locs| && f !in done
    ensures AllFirst(io.live, io.saved, r, done) ==> FirstTime(io, if f < keep then r.locs[f] else Loc(0, 0))
  {}

  lemma OwnHere(g: Cells, r: Rec, f: nat, a: nat, keep: nat, l: Loc)
    requires keep <= |r.locs| && l == (if f < keep then r.locs[f] else Loc(0, 0))
        && (a !in g || (!l.Hole() && a == l.addr))
    ensures Own(g, r, f, a)
  {}

  lemma WaitsAt(view: Cells, r: Rec, done: map<nat, Blob>, pend: seq<Pending>, f: nat, keep: nat)
    requires AllWait(view, r, done, pend) && f !in done && keep <= |r.locs|
    ensures Waits(view, if f < keep then r.locs[f] else Loc(0, 0), pend)
  {}

  lemma BuiltNone(view: Cells, v0: Cells, r: Rec, init: Tables, n: nat, dot: nat, cc: Suite)
    requires init.Of(n) && Kept(view, v0, r, map[])
    ensures Built(view, v0, r, init, init, n, map[], dot, cc)
  {}

  // ---------------------------------------------------------------- the successor record

  /**
   One suite for all, or the whole table: a content write collapses to the current suite only, a pure resize to
   any.
   */
  method Collapse(suites: seq<Suite>, cc: Suite, writes: bool) returns (suite: Suite, table: seq<Suite>)
    ensures table == [] || table == suites
    ensures forall i | 0 <= i < |suites| :: (if table == [] then suite else table[i]) == suites[i]
    ensures table == [] <==> forall i | 0 <= i < |suites| :: suites[i] == if writes then cc else suites[0]
  {
    var first := if suites == [] then cc else suites[0];
    var want := if writes then cc else first;
    var i := 0;
    while i < |suites|
      invariant 0 <= i <= |suites| && forall j | 0 <= j < i :: suites[j] == want
    {
      if suites[i] != want { return cc, suites; }
      i := i + 1;
    }
    return want, [];
  }

  /** The exact bytes of the successor, fragment by fragment. */
  ghost predicate FoldExact(v0: Cells, r: Rec, v1: Cells, s: Rec, dirty: seq<Dirty>, size: nat, keep: nat)
    requires RecIn(v0, r) && RecIn(v1, s) && |s.locs| == Frags(size, s.Fs()) && keep <= |r.locs|
    requires Ordered(dirty, |s.locs|) && Covering(dirty, size, s.Fs())
  {
    && (forall j, o | 0 <= j < |dirty| && 0 <= o < s.Fs() ::
          StoredByte(v1, s, dirty[j].frag, o) == if o < FragLen(size, s.Fs(), dirty[j].frag) then
              dirty[j].plain[o] else 0)
    && (forall i, o | 0 <= i < |s.locs| && !IsStaged(dirty, i) && 0 <= o < s.Fs() ::
          StoredByte(v1, s, i, o) == if i < keep then StoredByte(v0, r, i, o) else 0)
  }

  /** The record over the finished tables. */
  ghost predicate Encodes(s: Rec, t: Tables, n: nat, size: nat) {
    && t.Of(n) && s.dots == t.dots && s.locs == t.locs && 12 <= s.exp <= 22 && n == Frags(size, s.Fs())
        && s.last == LastLen(size, s.Fs())
    && (s.suites == [] || |s.suites| == n) && forall i | 0 <= i < n :: s.SuiteOf(i) == t.suites[i]
  }

  lemma EncodesShaped(s: Rec, t: Tables, n: nat, size: nat)
    requires Encodes(s, t, n, size) && size > 0
    ensures Shaped(s) && s.Size() == size && n > 0
  {
    hide Frags, LastLen, Pow2, Times;
    Geometry(size, s.Fs());
  }

  /** What one finished fragment of the successor is. */
  lemma FoldFrag(v0: Cells, view: Cells, r: Rec, keep: nat, n: nat, size: nat, t: Tables, done: map<nat, Blob>,
      dot: nat, cc: Suite,
                 s: Rec, i: nat)
    requires RecIn(v0, r) && keep <= |r.locs| && Shaped(s) && Encodes(s, t, n, size) && (keep > 0 ==> r.exp == s.exp)
        && i < n
    requires Built(view, v0, r, Carried(r, keep, n, cc), t, n, done, dot, cc)
    requires forall k | k in done :: |done[k].plain| <= s.Fs()
    ensures FragIn(view, s, i)
    ensures i in done ==>
        forall o: nat :: StoredByte(view, s, i, o) == if o < |done[i].plain| then done[i].plain[o] else 0
    ensures i !in done ==> forall o: nat :: StoredByte(view, s, i, o) == if i < keep then StoredByte(v0, r, i, o) else 0
  {
    hide Frags, LastLen, Pow2, Blob.Len, Separate;
    if i in done { assert Sealed(view, t, n, i, done[i], dot, cc); } else if i < keep { assert FragIn(v0, r, i); }
  }

  lemma FoldDistinct(v0: Cells, view: Cells, r: Rec, keep: nat, n: nat, size: nat, t: Tables, done: map<nat, Blob>,
      dot: nat,
                     cc: Suite, s: Rec)
    requires RecIn(v0, r) && keep <= |r.locs| && Encodes(s, t, n, size)
    requires Built(view, v0, r, Carried(r, keep, n, cc), t, n, done, dot, cc)
    ensures Distinct(s)
  {
    hide Frags, LastLen, Pow2, Blob.Len, AllSealed, FragIn, Kept;
    forall i, j | 0 <= i < j < n && !s.locs[i].Hole() && !s.locs[j].Hole() ensures s.locs[i].addr != s.locs[j].addr
    {
      assert i !in done ==> i < keep && s.locs[i] == r.locs[i];
      assert j !in done ==> j < keep && s.locs[j] == r.locs[j];
    }
  }

  /** The tables describe a readable record with exactly the folded bytes. */
  lemma FoldRec(v0: Cells, view: Cells, r: Rec, keep: nat, size: nat, t: Tables, done: map<nat, Blob>, dot: nat,
      w: Writer,
                s: Rec, dirty: seq<Dirty>)
    requires RecIn(v0, r) && keep <= |r.locs| && size > 0 && Encodes(s, t, Frags(size, s.Fs()), size)
        && (keep > 0 ==> r.exp == s.exp)
    requires Built(view, v0, r, Carried(r, keep, Frags(size, s.Fs()), w.suite), t, Frags(size, s.Fs()), done, dot,
        w.suite)
    requires s.Fs() >= 16 && Ordered(dirty, Frags(size, s.Fs())) && Covering(dirty, size, s.Fs())
    requires SealedUpTo(w, dirty, size, s.Fs(), dot, done, |dirty|)
    ensures RecIn(view, s) && s.Size() == size && FoldExact(v0, r, view, s, dirty, size, keep)
  {
    hide Frags, LastLen, Pow2, Blob.Len, Built, Kept, FragIn, SealOf, FragLen, Encodes, Padded;
    var n := Frags(size, s.Fs());
    EncodesShaped(s, t, n, size);
    assert dirty[..|dirty|] == dirty;
    SealedSizes(w, dirty, size, s.Fs(), dot, done);
    FoldDistinct(v0, view, r, keep, n, size, t, done, dot, w.suite, s);
    assert |s.locs| == n by { EncodesLen(s, t, n, size); }
    forall i | 0 <= i < |s.locs| ensures FragIn(view, s, i)
    {
      FoldFrag(v0, view, r, keep, n, size, t, done, dot, w.suite, s, i);
    }
    assert RecIn(view, s);
    forall j, o | 0 <= j < |dirty| && 0 <= o < s.Fs()
      ensures StoredByte(view, s, dirty[j].frag, o) == if o < FragLen(size, s.Fs(), dirty[j].frag) then
          dirty[j].plain[o] else 0
    {
      FoldFrag(v0, view, r, keep, n, size, t, done, dot, w.suite, s, dirty[j].frag);
      SealedByte(w, dirty[j], size, s.Fs(), dot, o);
    }
    forall i, o | 0 <= i < |s.locs| && !IsStaged(dirty, i) && 0 <= o < s.Fs()
      ensures StoredByte(view, s, i, o) == if i < keep then StoredByte(v0, r, i, o) else 0
    {
      FoldFrag(v0, view, r, keep, n, size, t, done, dot, w.suite, s, i);
    }
  }

  lemma EncodesLen(s: Rec, t: Tables, n: nat, size: nat)
    requires Encodes(s, t, n, size)
    ensures |s.locs| == n
  {}

  lemma SealedSizes(w: Writer, dirty: seq<Dirty>, size: nat, fs: nat, dot: nat, done: map<nat, Blob>)
    requires fs >= 16 && Ordered(dirty, Frags(size, fs)) && Covering(dirty, size, fs)
        && SealedUpTo(w, dirty, size, fs, dot, done, |dirty|)
    ensures forall k | k in done :: |done[k].plain| <= fs
    ensures forall k | k in done :: IsStaged(dirty, k)
  {
    hide Frags, FragLen, Padded;
    assert dirty[..|dirty|] == dirty;
    forall k | k in done ensures |done[k].plain| <= fs
    {
      var j :| 0 <= j < |dirty| && dirty[j].frag == k;
      assert done[k] == SealOf(w, dirty[j], size, fs, dot);
    }
  }

  /** A sealed fragment decrypts to the staged bytes, then zeros. */
  lemma SealedByte(w: Writer, d: Dirty, size: nat, fs: nat, dot: nat, o: nat)
    requires fs >= 16 && d.frag < Frags(size, fs) && |d.plain| >= FragLen(size, fs, d.frag)
    ensures var b := SealOf(w, d, size, fs, dot);
            (if o < |b.plain| then b.plain[o] else 0) == if o < FragLen(size, fs, d.frag) then d.plain[o] else 0
  {
    hide Frags, FragLen;
    FragStart(size, fs, d.frag);
    var n := FragLen(size, fs, d.frag);
    assert 0 < n <= fs by { FragLenRange(size, fs, d.frag); }
    var r := Padded(w, d.plain, n, fs);
    assert o < n ==> r[..n][o] == d.plain[..n][o];
  }

  lemma FragLenRange(size: nat, fs: nat, f: nat)
    requires fs > 0 && f < Frags(size, fs)
    ensures 0 < FragLen(size, fs, f) <= fs
  {
    FragStart(size, fs, f);
  }

  // ---------------------------------------------------------------- the frozen-size fold

  datatype FoldStatus = Done | BadRequest | OutOfSpace

  /** Fragments kept from the old version: the fold minimum rounded up to a fragment. */
  function KeepFrags(min: nat, fs: nat, have: nat): (r: nat)
    requires fs > 0
    ensures r <= have
  {
    var k := if min == 0 then 0 else Frags(min, fs);
    if k > have then have else k
  }

  method CheckDirty(dirty: seq<Dirty>, n: nat) returns (ok: bool)
    ensures ok <==> Ordered(dirty, n)
  {
    for d := 0 to |dirty|
      invariant forall j | 0 <= j < d :: dirty[j].frag < n && (j > 0 ==> dirty[j - 1].frag < dirty[j].frag)
    {
      if dirty[d].frag >= n || (d > 0 && dirty[d].frag <= dirty[d - 1].frag) { return false; }
    }
    return true;
  }

  /** A readable record's slots wait, and are kept so far. */
  lemma ReadableWaits(view: Cells, r: Rec)
    requires RecIn(view, r)
    ensures AllWait(view, r, map[], []) && Kept(view, view, r, map[]) && Distinct(r)
  {
    hide Pow2;
    forall k | 0 <= k < |r.locs| ensures Waits(view, r.locs[k], []) { assert FragIn(view, r, k); }
    forall k | 0 <= k < |r.locs| && !r.locs[k].Hole() ensures r.locs[k].addr in view { assert FragIn(view, r, k); }
  }

  lemma Sixteen(e: nat)
    requires e >= 12
    ensures Pow2(e) >= 16
  {
    if e > 12 { Sixteen(e - 1); } else { assert Pow2(12) == 4096 by { assert Pow2(6) == 64; } }
  }

  /** One batch folded at the stream's own fragment size. */
  method FoldFrozen(io: ContentIo, w: Writer, r: Rec, exp: nat, size: nat, min: nat, dirty: seq<Dirty>)
    returns (st: FoldStatus, s: Rec, ghost sync: VV.U64)
    requires io.Valid() && RecIn(io.view, r) && VV.Wf(r.vv)
    requires 12 <= exp <= 22 && (r.locs != [] ==> exp == r.exp) && Covering(dirty, size, Pow2(exp))
        && (size == 0 ==> dirty == [])
    modifies io`dev, io`view, io`saved, io`ws, io`es, io.fa
    ensures io.Valid() && Logged(old(io.ws), old(io.es), io.ws, io.es, old(FirstTouch(io, r)))
    ensures st.BadRequest? <==> !Ordered(dirty, Frags(size, Pow2(exp)))
    ensures st.OutOfSpace? ==> old(io.Gap()) < FoldNeed(dirty, Pow2(exp))
    ensures st.Done? ==> RecIn(io.view, s) && s.Size() == size && Dotted(r, s, w.alias, sync)
    ensures st.Done? && size > 0 ==>
      && s.exp == exp && |s.locs| == Frags(size, s.Fs()) && Ordered(dirty, |s.locs|)
      && FoldExact(old(io.view), r, io.view, s, dirty, size, KeepFrags(min, Pow2(exp), |r.locs|))
      && forall j | 0 <= j < |dirty| :: s.dots[dirty[j].frag] == VV.Dot(sync, w.alias)
  {
    hide ContentIo.Valid, Pow2, Frags, Ordered, FragIn, Waits, AllWait, Kept, Built, AllFirst, Logged, SealedUpTo,
        LastLen, VV.Wf, Carried;
    var fs := Pow2(exp);
    Sixteen(exp);
    var n := Frags(size, fs);
    var keep := KeepFrags(min, fs, |r.locs|);
    s, sync := r, 0;
    NothingLogged(io);
    var valid := CheckDirty(dirty, n);
    if !valid { st := BadRequest; return; }
    var vv, c := VV.Bump(r.vv, w.alias);
    sync := c;
    var dot := VV.Dot(c, w.alias);
    if size == 0 {
      s := Rec(12, [], [], 0, w.suite, [], vv);
      st := Done;
      return;
    }
    ReadableWaits(io.view, r);
    ReadableShort(io.view, r);
    assert NoLonger(r, fs + 16);
    ghost var v0 := io.view;
    var init := Carried(r, keep, n, w.suite);
    var ok, t;
    ghost var done;
    ok, t, done := SealAll(io, w, r, size, fs, keep, dirty, dot, init);
    if !ok { st := OutOfSpace; return; }
    assert t.Of(n) by { BuiltOf(io.view, v0, r, init, t, n, done, dot, w.suite); }
    var suite, table := Collapse(t.suites, w.suite, |dirty| > 0);
    s := Rec(exp, t.dots, t.locs, LastLen(size, fs), suite, table, vv);
    FoldRec(v0, io.view, r, keep, size, t, done, dot, w, s, dirty);
    FoldDots(io.view, v0, r, init, t, n, done, dot, w, dirty, size, fs);
    st := Done;
  }

  /** The successor's version vector is the predecessor's with the writer's counter bumped. */
  ghost predicate Dotted(r: Rec, s: Rec, a: VV.U16, sync: VV.U64) {
    && sync == VV.Counter(s.vv, a) == (VV.Counter(r.vv, a) + 1) % VV.WRAP
    && (forall b: VV.U16 | b != a :: VV.Counter(s.vv, b) == VV.Counter(r.vv, b))
    && (sync > 0 ==> VV.Wf(s.vv))
  }

  lemma BuiltOf(g: Cells, v0: Cells, r: Rec, init: Tables, t: Tables, n: nat, done: map<nat, Blob>, dot: nat, cc: Suite)
    requires Built(g, v0, r, init, t, n, done, dot, cc)
    ensures t.Of(n)
  {}

  lemma FoldDots(g: Cells, v0: Cells, r: Rec, init: Tables, t: Tables, n: nat, done: map<nat, Blob>, dot: nat,
      w: Writer,
                 dirty: seq<Dirty>, size: nat, fs: nat)
    requires Built(g, v0, r, init, t, n, done, dot, w.suite) && fs >= 16 && n == Frags(size, fs)
    requires Ordered(dirty, n) && Covering(dirty, size, fs) && SealedUpTo(w, dirty, size, fs, dot, done, |dirty|)
    ensures t.Of(n) && forall j | 0 <= j < |dirty| :: t.dots[dirty[j].frag] == dot
  {
    hide Frags, FragLen, Blob.Len;
    forall j | 0 <= j < |dirty| ensures t.dots[dirty[j].frag] == dot
    {
      assert Sealed(g, t, n, dirty[j].frag, done[dirty[j].frag], dot, w.suite);
    }
  }

  // ---------------------------------------------------------------- what the fold means

  /** The promise: staged bytes where staged, old bytes below the fold minimum, zeros elsewhere. */
  ghost predicate FoldIdeal(v0: Cells, r: Rec, v1: Cells, s: Rec, dirty: seq<Dirty>, size: nat, min: nat)
    requires RecIn(v0, r) && RecIn(v1, s) && Ordered(dirty, Frags(size, s.Fs())) && Covering(dirty, size, s.Fs())
  {
    && (forall j, o | 0 <= j < |dirty| && 0 <= o < FragLen(size, s.Fs(), dirty[j].frag) ::
          ByteAt(v1, s, Times(dirty[j].frag, s.Fs()) + o) == dirty[j].plain[o])
    && (forall p | 0 <= p < size && !IsStaged(dirty, Quot(p, s.Fs())) ::
        ByteAt(v1, s, p) == if p < min then ByteAt(v0, r, p) else 0)
  }

  /** Nothing stale is stored past the fold minimum in a kept fragment that is not staged again. */
  ghost predicate BoundaryClean(v0: Cells, r: Rec, dirty: seq<Dirty>, size: nat, min: nat, keep: nat)
    requires RecIn(v0, r) && keep <= |r.locs|
  {
    forall p | min <= p < size && Quot(p, r.Fs()) < keep && !IsStaged(dirty, Quot(p, r.Fs())) ::
        StoredByte(v0, r, Quot(p, r.Fs()), Rem(p, r.Fs())) == 0
  }

  lemma KeptBelow(min: nat, fs: nat, have: nat, p: nat)
    requires fs > 0 && Frags(min, fs) <= have
    ensures p < min ==> Quot(p, fs) < KeepFrags(min, fs, have)
  {
    hide Frags, Quot;
    Position(min, fs, p);
  }

  /** One position of the successor that is not staged. */
  lemma FoldAt(v0: Cells, r: Rec, v1: Cells, s: Rec, dirty: seq<Dirty>, size: nat, min: nat, p: nat)
    requires RecIn(v0, r) && RecIn(v1, s) && |s.locs| == Frags(size, s.Fs()) && min <= r.Size() && p < size
    requires Ordered(dirty, |s.locs|) && Covering(dirty, size, s.Fs()) && (r.locs != [] ==> r.exp == s.exp)
    requires FoldExact(v0, r, v1, s, dirty, size, KeepFrags(min, s.Fs(), |r.locs|)) && !IsStaged(dirty, Quot(p, s.Fs()))
    ensures var fs, keep := s.Fs(), KeepFrags(min, s.Fs(), |r.locs|);
      && (Quot(p, fs) < keep ==>
          r.Fs() == fs && ByteAt(v1, s, p) == StoredByte(v0, r, Quot(p, fs), Rem(p, fs)) == ByteAt(v0, r, p))
      && (Quot(p, fs) >= keep ==> ByteAt(v1, s, p) == 0)
      && (p < min ==> Quot(p, fs) < keep)
  {
    KeepBound(r, s, min);
    hide RecIn, Pow2, Frags, FragLen, StoredByte, Ordered, Covering, Quot, Rem, Times;
    Position(size, s.Fs(), p);
    KeptBelow(min, s.Fs(), |r.locs|, p);
  }

  lemma FoldStagedAt(v0: Cells, r: Rec, v1: Cells, s: Rec, dirty: seq<Dirty>, size: nat, keep: nat, j: nat, o: nat)
    requires RecIn(v0, r) && RecIn(v1, s) && |s.locs| == Frags(size, s.Fs()) && keep <= |r.locs|
    requires Ordered(dirty, |s.locs|) && Covering(dirty, size, s.Fs())
    requires FoldExact(v0, r, v1, s, dirty, size, keep) && j < |dirty| && o < FragLen(size, s.Fs(), dirty[j].frag)
    ensures |dirty[j].plain| > o && ByteAt(v1, s, Times(dirty[j].frag, s.Fs()) + o) == dirty[j].plain[o]
  {
    FoldUsesFragLens(dirty, size, s.Fs());
    hide RecIn, Pow2, Frags, FragLen, StoredByte, Covering, Quot, Rem, Times;
    Unique(Times(dirty[j].frag, s.Fs()) + o, s.Fs(), dirty[j].frag, o);
  }

  /** The fold keeps its promise exactly when the boundary fragment is clean or staged. */
  lemma FoldMeaning(v0: Cells, r: Rec, v1: Cells, s: Rec, dirty: seq<Dirty>, size: nat, min: nat)
    requires RecIn(v0, r) && RecIn(v1, s) && |s.locs| == Frags(size, s.Fs()) && min <= size && min <= r.Size()
    requires Ordered(dirty, |s.locs|) && Covering(dirty, size, s.Fs()) && (r.locs != [] ==> r.exp == s.exp)
    requires FoldExact(v0, r, v1, s, dirty, size, KeepFrags(min, s.Fs(), |r.locs|))
    ensures FoldIdeal(v0, r, v1, s, dirty, size, min) <==>
        BoundaryClean(v0, r, dirty, size, min, KeepFrags(min, s.Fs(), |r.locs|))
  {
    hide FragIn, Shaped, Pow2, Frags, FragLen, StoredByte, Ordered, Covering, Quot, Rem, Times, ByteAt, FoldExact,
        KeepFrags;
    var fs, keep := s.Fs(), KeepFrags(min, s.Fs(), |r.locs|);
    FoldUsesFragLens(dirty, size, fs);
    forall j, o | 0 <= j < |dirty| && 0 <= o < FragLen(size, fs, dirty[j].frag)
      ensures ByteAt(v1, s, Times(dirty[j].frag, fs) + o) == dirty[j].plain[o]
    {
      FoldStagedAt(v0, r, v1, s, dirty, size, keep, j, o);
    }
    if FoldIdeal(v0, r, v1, s, dirty, size, min) {
      assert keep > 0 ==> r.Fs() == fs by { KeepMeans(r, s, min, fs); }
      forall p | min <= p < size && Quot(p, r.Fs()) < keep && !IsStaged(dirty, Quot(p, r.Fs()))
        ensures StoredByte(v0, r, Quot(p, r.Fs()), Rem(p, r.Fs())) == 0
      {
        FoldAt(v0, r, v1, s, dirty, size, min, p);
      }
    }
    if BoundaryClean(v0, r, dirty, size, min, keep) {
      forall p | 0 <= p < size && !IsStaged(dirty, Quot(p, fs)) ensures ByteAt(v1, s, p) == if p < min then
          ByteAt(v0, r, p) else 0
      {
        FoldAt(v0, r, v1, s, dirty, size, min, p);
      }
    }
  }

  lemma KeepMeans(r: Rec, s: Rec, min: nat, fs: nat)
    requires fs == s.Fs() && (r.locs != [] ==> r.exp == s.exp)
    ensures KeepFrags(min, fs, |r.locs|) > 0 ==> r.Fs() == fs
  {}

  lemma FoldUsesFragLens(dirty: seq<Dirty>, size: nat, fs: nat)
    requires fs > 0 && Ordered(dirty, Frags(size, fs)) && Covering(dirty, size, fs)
    ensures forall j | 0 <= j < |dirty| :: dirty[j].frag < Frags(size, fs) && FragLen(size, fs, dirty[j].frag) <= fs
    ensures forall j | 0 <= j < |dirty| :: |dirty[j].plain| >= FragLen(size, fs, dirty[j].frag)
  {
    hide Frags, FragLen;
    forall j | 0 <= j < |dirty| ensures FragLen(size, fs, dirty[j].frag) <= fs
        { FragLenRange(size, fs, dirty[j].frag); }
  }

  lemma KeepBound(r: Rec, s: Rec, min: nat)
    requires Shaped(r) && min <= r.Size() && (r.locs != [] ==> r.exp == s.exp)
    ensures Frags(min, s.Fs()) <= |r.locs|
  {
    hide Pow2, Frags, Quot, Rem, LastLen, Times, Rec.Size;
    var fs := s.Fs();
    SizeFrags(r);
    Geometry(min, fs);
    if min > 0 {
      Geometry(r.Size(), fs);
      var n, q := |r.locs|, Frags(min, fs);
      EmptySize(r);
      TimesSucc(n - 1, fs);
      if n < q { TimesLe(n, q - 1, fs); }
    }
  }

  lemma EmptySize(r: Rec)
    ensures r.locs == [] ==> r.Size() == 0
  {}

  /** Staging the fragment the minimum cuts through is enough. */
  lemma BoundaryStaged(v0: Cells, r: Rec, dirty: seq<Dirty>, size: nat, min: nat)
    requires RecIn(v0, r) && (Rem(min, r.Fs()) == 0 || IsStaged(dirty, Quot(min, r.Fs())))
    ensures BoundaryClean(v0, r, dirty, size, min, KeepFrags(min, r.Fs(), |r.locs|))
  {
    hide RecIn, Pow2, Quot, Rem, StoredByte, KeepFrags;
    var fs := r.Fs();
    forall p | min <= p < size && Quot(p, fs) < KeepFrags(min, fs, |r.locs|) ensures Quot(p, fs) == Quot(min, fs)
        && Rem(min, fs) != 0
    {
      CutFragment(min, fs, p, |r.locs|);
    }
  }

  lemma CutFragment(min: nat, fs: nat, p: nat, have: nat)
    requires fs > 0 && min <= p && Quot(p, fs) < KeepFrags(min, fs, have)
    ensures Quot(p, fs) == Quot(min, fs) && Rem(min, fs) != 0
  {
    hide Times, Quot, Rem;
    var q, r, k := Quot(min, fs), Rem(min, fs), Quot(p, fs);
    DivMod(min, fs);
    DivMod(p, fs);
    TimesSucc(q, fs);
    if r == 0 { Unique(min + fs - 1, fs, q, fs - 1); } else { Unique(min + fs - 1, fs, q + 1, r - 1); }
    TimesSucc(k, fs);
    if k < q { TimesLe(k + 1, q, fs); }
  }

  /** Truncating and growing again without staging the cut fragment brings stale bytes back. */
  lemma StaleBytes() returns (v: Cells, r: Rec, s: Rec)
    ensures RecIn(v, r) && RecIn(v, s) && r.Size() == 4096 && s.exp == r.exp && s.Size() == 200
    ensures |s.locs| == Frags(200, s.Fs()) && FoldExact(v, r, v, s, [], 200, KeepFrags(100, s.Fs(), |r.locs|))
    ensures ByteAt(v, s, 150) == 7 && !FoldIdeal(v, r, v, s, [], 200, 100)
  {
    var b := Blob(Plain, 0, 1, seq(4096, _ => 7));
    v, r := map[8192 := Slot(b)], Rec(12, [1], [Loc(8192, 4096)], 4096, Plain, [], []);
    s := r.(last := 200);
    assert Pow2(12) == 4096 by { assert Pow2(6) == 64; }
    assert FragIn(v, r, 0) && FragIn(v, s, 0);
    assert Quot(150, 4096) == 0 && Rem(150, 4096) == 150 && StoredByte(v, r, 0, 150) == 7;
    assert KeepFrags(100, r.Fs(), |r.locs|) == 1;
  }
}
