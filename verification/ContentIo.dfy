/**
 The content area during one commit scope: sealed fragments and undo images placed
 by the allocator on a device with a write cache (kernel/sfs_cow.c:50-96, 239-265
 and 511-588).  Every device write and barrier is logged, so that the whole scope is
 one run in the sense of Undo.
 */
module ContentIo {
  import opened Extents
  import F = Falloc
  import opened Undo

  /** Cells the session relies on: readable, allocated, mutually apart. */
  ghost predicate Held(view: Cells, now: Cells, used: F.Bytes) {
    && (forall a | a in view :: a in now && now[a] == view[a] && view[a].Span() > 0 && Range(a, view[a].Span()) <= used)
    && (forall a, b | a in view && b in view && a != b :: !Overlap(a, view[a].Span(), b, view[b].Span()))
  }

  /** The images a crash could leave are all in view, each with the slot it would restore. */
  ghost predicate Seen(dev: Dev, view: Cells, active: nat) {
    forall t: nat, c | Could(dev, t, c) && Applicable(c, active) ::
      t in view && view[t] == c && c.inplace in view && view[c.inplace].Slot?
          && SlotSpan(c.was) == view[c.inplace].Span()
  }

  ghost predicate Occupied(live: Live, view: Cells) {
    forall x | x in live :: x in view && view[x].Slot? && view[x].Span() == SlotSpan(live[x])
  }

  /** A committed slot is intact, or an image of its committed bytes is durable. */
  ghost predicate Shield(dev: Dev, live: Live, saved: map<nat, nat>, active: nat) {
    forall x | x in live :: if x in saved then GoodImage(dev, active, x, live[x], saved[x]) else Whole(dev, x, live[x])
  }

  ghost predicate Sound(dev: Dev, live: Live, saved: map<nat, nat>, active: nat, view: Cells, used: F.Bytes) {
    && Crash(dev, dev.now) && Held(view, dev.now, used) && Seen(dev, view, active) && Occupied(live, view)
    && Shield(dev, live, saved, active)
  }

  ghost function Spans(view: Cells): Slots { map a | a in view && view[a].Slot? :: view[a].Span() }

  ghost function Now(dev: Dev, live: Live, active: nat, view: Cells): World { World(dev, Spans(view), live, active) }

  lemma SoundSane(dev: Dev, live: Live, saved: map<nat, nat>, active: nat, view: Cells, used: F.Bytes)
    requires Sound(dev, live, saved, active, view, used)
    ensures Sane(Now(dev, live, active, view))
  {
    hide Cell.Span, Could, Crash, Untouched;
    var slots := Spans(view);
    forall t, c | Could(dev, t, c) && Applicable(c, active) ensures Aims(t, c, slots) {}
  }

  lemma FreeApart(a: nat, n: nat, b: nat, m: nat, used: F.Bytes)
    requires F.Apart(Range(a, n), used) && Range(b, m) <= used && n > 0 && m > 0
    ensures !Overlap(a, n, b, m) && !Overlap(b, m, a, n)
  {
    var x := if a < b then b else a;
    assert a in Range(a, n) && b in Range(b, m);
    assert Overlap(a, n, b, m) ==> x in Range(a, n) && x in Range(b, m);
  }

  lemma HeldPlace(view: Cells, now: Cells, used: F.Bytes, a: nat, c: Cell)
    requires Held(view, now, used) && F.Apart(Range(a, c.Span()), used) && c.Span() > 0
    ensures forall b | b in view :: !Overlap(a, c.Span(), b, view[b].Span()) && !Overlap(b, view[b].Span(), a, c.Span())
    ensures a !in view && Held(view[a := c], Overwrite(now, a, c), used + Range(a, c.Span()))
  {
    hide Cell.Span, Range, F.Apart;
    forall b | b in view ensures !Overlap(a, c.Span(), b, view[b].Span()) && !Overlap(b, view[b].Span(), a, c.Span())
    {
      FreeApart(a, c.Span(), b, view[b].Span(), used);
    }
  }

  /** What a slot image must name to be placed. */
  ghost predicate Meant(view: Cells, c: Cell, active: nat) {
    Applicable(c, active) ==> c.inplace in view && view[c.inplace].Slot? && SlotSpan(c.was) == view[c.inplace].Span()
  }

  lemma SpansPlace(view: Cells, a: nat, c: Cell)
    requires a !in view
    ensures Spans(view[a := c]) == WithCell(Spans(view), a, c)
  {}

  lemma SeenPut(dev: Dev, view: Cells, active: nat, a: nat, c: Cell)
    requires Seen(dev, view, active) && a !in view && Meant(view, c, active)
    ensures Seen(Put(dev, a, c), view[a := c], active)
  {
    hide Cell.Span, Could, Put;
    forall t, v ensures Could(Put(dev, a, c), t, v) <==> Could(dev, t, v) || (t == a && v == c)
        { CouldPut(dev, a, c, t, v); }
  }

  /** A write away from committed slots and their images leaves them shielded. */
  lemma ShieldPut(dev: Dev, live: Live, saved: map<nat, nat>, active: nat, slots: Slots, a: nat, c: Cell)
    requires Shield(dev, live, saved, active) && Layout(dev, slots, active)
    requires forall x | x in live :: x in slots && slots[x] == SlotSpan(live[x])
    requires forall t: nat, v | Could(dev, t, v) && Applicable(v, active) :: !Overlap(t, v.Span(), a, c.Span())
    requires forall x | x in live && x !in saved :: !Overlap(x, slots[x], a, c.Span())
    ensures Shield(Put(dev, a, c), live, saved, active)
  {
    hide Cell.Span, GoodImage, Whole, Layout, Put, Could;
    forall x | x in live
      ensures if x in saved then
          GoodImage(Put(dev, a, c), active, x, live[x], saved[x]) else Whole(Put(dev, a, c), x, live[x])
    {
      PutKeeps(dev, slots, active, a, c, x, live[x]);
    }
  }

  lemma ImagesClear(dev: Dev, view: Cells, active: nat, a: nat, n: nat)
    requires Seen(dev, view, active)
    requires forall b | b in view && view[b].Image? :: !Overlap(b, view[b].Span(), a, n)
    ensures forall t: nat, v | Could(dev, t, v) && Applicable(v, active) :: !Overlap(t, v.Span(), a, n)
  {
    hide Cell.Span, Could;
  }

  lemma OccupiedPlace(live: Live, view: Cells, a: nat, c: Cell)
    requires Occupied(live, view) && a !in view
    ensures Occupied(live, view[a := c])
  {
    hide Cell.Span;
  }

  /** A cell written to freshly allocated space. */
  lemma PlaceSound(dev: Dev, live: Live, saved: map<nat, nat>, active: nat, view: Cells, used: F.Bytes, a: nat, c: Cell)
    requires Sound(dev, live, saved, active, view, used) && F.Apart(Range(a, c.Span()), used) && c.Span() > 0
        && Meant(view, c, active)
    ensures a !in view && Sound(Put(dev, a, c), live, saved, active, view[a := c], used + Range(a, c.Span()))
    ensures Takes(Now(dev, live, active, view), Writes(a, c), Now(Put(dev, a, c), live, active, view[a := c]))
  {
    hide Cell.Span, Range, F.Apart, Crash, Could, Untouched, GoodImage, Whole, Layout, Held, Seen, Shield, Occupied;
    HeldPlace(view, dev.now, used, a, c);
    SoundSane(dev, live, saved, active, view, used);
    SpansPlace(view, a, c);
    PutCoherent(dev, a, c);
    SeenPut(dev, view, active, a, c);
    OccupiedPlace(live, view, a, c);
    ImagesClear(dev, view, active, a, c.Span());
    ShieldPut(dev, live, saved, active, Spans(view), a, c);
    assert Vacant(Now(dev, live, active, view), a, c.Span());
  }

  lemma HeldOver(view: Cells, now: Cells, used: F.Bytes, x: nat, b: Blob)
    requires Held(view, now, used) && x in view && view[x].Slot? && SlotSpan(b) == view[x].Span()
    ensures Held(view[x := Slot(b)], Overwrite(now, x, Slot(b)), used) && Spans(view[x := Slot(b)]) == Spans(view)
    ensures forall t | t in view && view[t].Image? :: !Overlap(t, view[t].Span(), x, Slot(b).Span())
    ensures forall y | y in view && y != x :: !Overlap(y, view[y].Span(), x, Slot(b).Span())
  {
    assert Slot(b).Span() == SlotSpan(b);
    hide Cell.Span, Range;
  }

  /** Overwriting a slot in place, committed slots only once an image of the committed bytes is durable. */
  lemma OverSound(dev: Dev, live: Live, saved: map<nat, nat>, active: nat, view: Cells, used: F.Bytes, x: nat, b: Blob)
    requires Sound(dev, live, saved, active, view, used) && x in view && view[x].Slot? && SlotSpan(b) == view[x].Span()
    requires x in live ==> x in saved
    ensures Sound(Put(dev, x, Slot(b)), live, saved, active, view[x := Slot(b)], used)
    ensures var w := Now(dev, live, active, view);
            Takes(w, Overwrites(x, b), Now(Put(dev, x, Slot(b)), live, active, view[x := Slot(b)]))
                && Fair(w, Overwrites(x, b))
  {
    assert Slot(b).Span() == SlotSpan(b);
    hide Cell.Span, Crash, Could, Untouched, Whole, Layout, Held, Seen;
    SoundSane(dev, live, saved, active, view, used);
    PutCoherent(dev, x, Slot(b));
    HeldOver(view, dev.now, used, x, b);
    ImagesClear(dev, view, active, x, Slot(b).Span());
    ShieldPut(dev, live, saved, active, Spans(view), x, Slot(b));
    SeenOver(dev, view, active, x, b);
  }

  lemma SeenOver(dev: Dev, view: Cells, active: nat, x: nat, b: Blob)
    requires Seen(dev, view, active) && x in view && view[x].Slot? && SlotSpan(b) == view[x].Span()
    ensures Seen(Put(dev, x, Slot(b)), view[x := Slot(b)], active)
  {
    hide Cell.Span, Could, Put;
    forall t, v ensures Could(Put(dev, x, Slot(b)), t, v) <==> Could(dev, t, v) || (t == x && v == Slot(b))
        { CouldPut(dev, x, Slot(b), t, v); }
  }

  lemma FlushSound(dev: Dev, live: Live, saved: map<nat, nat>, active: nat, view: Cells, used: F.Bytes)
    requires Sound(dev, live, saved, active, view, used)
    ensures Sound(Flushed(dev), live, saved, active, view, used)
  {
    hide Cell.Span;
    var dev' := Flushed(dev);
    forall t, v | Could(dev', t, v) && !v.Junk? ensures Could(dev, t, v) {}
  }

  lemma SaveSound(dev: Dev, live: Live, saved: map<nat, nat>, active: nat, view: Cells, used: F.Bytes, x: nat, t: nat)
    requires Sound(dev, live, saved, active, view, used) && dev.inflight == [] && dev.durable == dev.now
    requires x in live && t in view && ImageFor(view[t], active, x) && view[t].was == live[x]
    ensures Sound(dev, live, saved[x := t], active, view, used)
  {
    hide Cell.Span, Seen, Crash;
    assert Untouched(dev, t);
    assert GoodImage(dev, active, x, live[x], t);
  }

  /** An in-place overwrite waiting for the barrier. */
  datatype Pending = Pending(addr: nat, b: Blob)

  /** The view once the pending overwrites have been applied. */
  ghost function Goal(view: Cells, pend: seq<Pending>): Cells
    decreases |pend|
  {
    if pend == [] then view
    else var n := |pend| - 1; Goal(view, pend[..n])[pend[n].addr := Slot(pend[n].b)]
  }

  lemma {:induction false} GoalPlace(view: Cells, pend: seq<Pending>, a: nat, c: Cell)
    requires forall i | 0 <= i < |pend| :: pend[i].addr != a
    ensures Goal(view[a := c], pend) == Goal(view, pend)[a := c]
    decreases |pend|
  {
    if pend != [] {
      var n := |pend| - 1;
      GoalPlace(view, pend[..n], a, c);
    }
  }

  lemma {:induction false} GoalKeeps(view: Cells, pend: seq<Pending>, a: nat)
    requires forall i | 0 <= i < |pend| :: pend[i].addr != a
    ensures a in Goal(view, pend) <==> a in view
    ensures a in view ==> Goal(view, pend)[a] == view[a]
    decreases |pend|
  {
    if pend != [] { GoalKeeps(view, pend[..|pend| - 1], a); }
  }

  /** Each pending overwrite keeps its slot's footprint and has an undo image of the slot in the view. */
  ghost predicate Ready(live: Live, saved: map<nat, nat>, active: nat, view: Cells, pend: seq<Pending>,
      tags: seq<nat>) {
    && |tags| == |pend|
    && (forall i | 0 <= i < |pend| :: Backed(live, saved, active, view, pend[i], tags[i]))
    && (forall i, j | 0 <= i < j < |pend| :: pend[i].addr != pend[j].addr)
  }

  ghost predicate Backed(live: Live, saved: map<nat, nat>, active: nat, view: Cells, p: Pending, t: nat) {
    && p.addr in view && view[p.addr].Slot? && SlotSpan(p.b) == view[p.addr].Span()
    && t in view && ImageFor(view[t], active, p.addr)
        && (p.addr in live && p.addr !in saved ==> view[t].was == live[p.addr])
  }

  /**
   The images that guard committed slots once all pending ones are durable; the first image of a slot stays its
   guard.
   */
  ghost function SavedAll(live: Live, saved: map<nat, nat>, pend: seq<Pending>, tags: seq<nat>): map<nat, nat>
    requires |tags| == |pend|
    decreases |pend|
  {
    if pend == [] then saved
    else
      var n := |pend| - 1;
      var s := SavedAll(live, saved, pend[..n], tags[..n]);
      if pend[n].addr in live && pend[n].addr !in s then s[pend[n].addr := tags[n]] else s
  }

  ghost predicate Among(pend: seq<Pending>, x: nat) { exists i :: 0 <= i < |pend| && pend[i].addr == x }

  /** After the barrier every pending committed slot is guarded by an image of its committed bytes. */
  lemma {:induction false} SaveAllSound(dev: Dev, live: Live, saved: map<nat, nat>, active: nat, view: Cells,
      used: F.Bytes,
                                        pend: seq<Pending>, tags: seq<nat>)
    requires Sound(dev, live, saved, active, view, used) && dev.inflight == [] && dev.durable == dev.now
    requires Ready(live, saved, active, view, pend, tags)
    ensures var s := SavedAll(live, saved, pend, tags);
            && Sound(dev, live, s, active, view, used) && (forall x | x in saved :: x in s && s[x] == saved[x])
            && (forall x | x in s :: x in saved || Among(pend, x)) && (forall x | Among(pend, x) && x in live :: x in s)
    decreases |pend|
  {
    hide Sound, Cell.Span;
    if pend != [] {
      var n := |pend| - 1;
      var p, t, q := pend[n], tags[n], pend[..n];
      assert Backed(live, saved, active, view, p, t);
      assert forall i | 0 <= i < n :: q[i] == pend[i] && tags[..n][i] == tags[i];
      SaveAllSound(dev, live, saved, active, view, used, q, tags[..n]);
      var s := SavedAll(live, saved, q, tags[..n]);
      if p.addr in live && p.addr !in s { SaveSound(dev, live, s, active, view, used, p.addr, t); }
      forall x ensures Among(pend, x) <==> Among(q, x) || x == p.addr { AmongLast(pend, x); }
    }
  }

  lemma AmongLast(pend: seq<Pending>, x: nat)
    requires pend != []
    ensures Among(pend, x) <==> Among(pend[..|pend| - 1], x) || x == pend[|pend| - 1].addr
  {
    var q := pend[..|pend| - 1];
    if i :| 0 <= i < |pend| && pend[i].addr == x { if i < |q| { assert q[i].addr == x; } }
    if i :| 0 <= i < |q| && q[i].addr == x { assert pend[i].addr == x; }
  }

  lemma TakenApart(s: F.Space, s': F.Space, region: F.Region, a: nat, n: nat)
    requires F.Inv(s) && n > 0 && F.Allocated(s, s', region, a, n)
    ensures F.Apart(Range(a, n), s.used) && s'.used == s.used + Range(a, n)
    ensures s'.cap - s'.frontier >= s.cap - s.frontier - n
  {
    F.AllocKeeps(s, s', region, a, n);
  }

  lemma PackedApart(s: F.Space, s': F.Space, a: nat, n: nat)
    requires F.Inv(s) && 0 < n < F.BLOCK && F.Packed(s, s', a, n)
    ensures F.Apart(Range(a, n), s.used) && s'.used == s.used + Range(a, n)
    ensures s'.cap - s'.frontier >= s.cap - s.frontier - 4096
  {
    F.PackKeeps(s, s', a, n);
  }

  // ---------------------------------------------------------------- the log of a scope

  /** The log so far is a run that ends in w and started where every crash could be undone. */
  ghost predicate Trail(ws: seq<World>, es: seq<Event>, w: World) {
    Runs(ws, es) && ws[|es|] == w && AllSafe(ws[0])
  }

  /** The log only grew; if `fair`, by fair events only. */
  ghost predicate Logged(ws: seq<World>, es: seq<Event>, ws': seq<World>, es': seq<Event>, fair: bool) {
    && ws <= ws' && es <= es' && |es| <= |es'| < |ws'|
    && (fair ==> forall i | |es| <= i < |es'| :: Fair(ws'[i], es'[i]))
  }

  lemma TrailMore(ws: seq<World>, es: seq<Event>, w: World, e: Event, w': World)
    requires Trail(ws, es, w) && Takes(w, e, w')
    ensures Trail(ws + [w'], es + [e], w') && Logged(ws, es, ws + [w'], es + [e], Fair(w, e))
  {
    hide Takes, Fair, Sane;
    var ws', es' := ws + [w'], es + [e];
    forall i, j | 0 <= i < |es'| && j == i + 1 ensures Takes(ws'[i], es'[i], ws'[j]) {
      if i < |es| { assert ws'[i] == ws[i] && es'[i] == es[i] && ws'[j] == ws[j]; }
    }
  }

  lemma LoggedTwice(ws: seq<World>, es: seq<Event>, ws1: seq<World>, es1: seq<Event>, ws2: seq<World>, es2: seq<Event>,
      fair: bool)
    requires Logged(ws, es, ws1, es1, fair) && Logged(ws1, es1, ws2, es2, fair)
    ensures Logged(ws, es, ws2, es2, fair)
  {
    hide Fair;
    assert forall i | 0 <= i < |es1| :: ws1[i] == ws2[i] && es1[i] == es2[i];
  }

  lemma LoggedFair(ws: seq<World>, es: seq<Event>, ws1: seq<World>, es1: seq<Event>)
    requires Logged(ws, es, ws1, es1, true) && |es| <= |ws| && forall i | 0 <= i < |es| :: Fair(ws[i], es[i])
    ensures forall i | 0 <= i < |es1| :: Fair(ws1[i], es1[i])
  {
    hide Fair;
    assert forall i | 0 <= i < |es| :: ws1[i] == ws[i] && es1[i] == es[i];
  }

  lemma LoggedNone(ws: seq<World>, es: seq<Event>, w: World)
    requires Trail(ws, es, w)
    ensures Logged(ws, es, ws, es, true) && Logged(ws, es, ws, es, false)
  {}

  lemma LoggedLess(ws: seq<World>, es: seq<Event>, ws1: seq<World>, es1: seq<Event>, fair: bool, less: bool)
    requires Logged(ws, es, ws1, es1, fair) && (less ==> fair)
    ensures Logged(ws, es, ws1, es1, less)
  {}

  class ContentIo {
    const fa: F.Falloc
    var dev: Dev
    const active: nat                // the header's commit number
    var retired: seq<(nat, nat)>     // blocks handed to the deferred-free callback

    ghost const live: Live
    ghost var saved: map<nat, nat>
    ghost var view: Cells
    ghost var ws: seq<World>
    ghost var es: seq<Event>

    /** A commit scope opens: the view has the committed slots and every image an earlier attempt may have left. */
    constructor (fa: F.Falloc, dev: Dev, active: nat, ghost live: Live, ghost view: Cells)
      requires fa.Valid() && Sound(dev, live, map[], active, view, fa.Abs().used)
          && AllSafe(Now(dev, live, active, view))
      ensures Valid() && this.fa == fa && this.dev == dev && this.active == active && this.live == live
          && saved == map[]
      ensures this.view == view && retired == [] && es == []
    {
      hide F.Falloc.Valid, Sound, Sane, AllSafe;
      this.fa, this.dev, this.active, this.live, saved, retired := fa, dev, active, live, map[], [];
      this.view, ws, es := view, [Now(dev, live, active, view)], [];
      SoundSane(dev, live, map[], active, view, fa.Abs().used);
    }

    ghost predicate Valid()
      reads this, fa
    {
      fa.Valid() && Sound(dev, live, saved, active, view, fa.Abs().used) && Trail(ws, es, Now(dev, live, active, view))
    }

    /** Bytes between the frontier and the tail. */
    ghost function Gap(): int
      reads fa
    {
      fa.cap - fa.frontier
    }

    /** No crash at any point of the scope so far loses a committed slot if and only if every logged event was fair. */
    lemma ScopeUndoableIff()
      requires Valid()
      ensures |es| < |ws| && (Restorable() <==> Fairly())
    {
      hide Fair, Undoable, F.Falloc.Valid, Sound, AllSafe, Takes, Sane;
      UndoableIff(ws[0]);
      RunUndoableIff(ws, es);
    }

    /** Every logged event was fair. */
    ghost predicate Fairly()
      reads this
      requires |es| <= |ws|
    {
      forall i | 0 <= i < |es| :: Fair(ws[i], es[i])
    }

    /** No crash at any point of the scope so far loses a committed slot. */
    ghost predicate Restorable()
      reads this
    {
      forall n | 0 <= n < |ws| :: Undoable(ws[n])
    }

    /** One device write or barrier. */
    ghost method Log(e: Event, w: World)
      requires Trail(ws, es, w) && Takes(w, e, Now(dev, live, active, view))
      modifies this`ws, this`es
      ensures Trail(ws, es, Now(dev, live, active, view)) && Logged(old(ws), old(es), ws, es, Fair(w, e))
    {
      hide Takes, Fair, Trail, Logged;
      TrailMore(ws, es, w, e, Now(dev, live, active, view));
      ws, es := ws + [Now(dev, live, active, view)], es + [e];
    }

    /** A packed sub-slot for a short ciphertext, whole blocks otherwise.  Zero means out of space. */
    method Place(b: Blob) returns (a: nat)
      requires Valid() && b.Len() > 0
      modifies this`dev, this`view, this`ws, this`es, fa
      ensures Valid() && Logged(old(ws), old(es), ws, es, true)
      ensures a == 0 ==> view == old(view) && Gap() < b.Len() + 4096
      ensures Gap() >= old(Gap()) - (if a == 0 then 0 else b.Len() + 4096)
      ensures a != 0 ==> a !in old(view) && view == old(view)[a := Slot(b)]
    {
      hide F.Inv, F.Allocated, F.Packed, Extents.Canonical, Cover, Sound, Range, F.Apart, Trail, Takes, Logged;
      ghost var s := fa.Abs();
      ghost var w := Now(dev, live, active, view);
      LoggedNone(ws, es, w);
      if b.Len() < BLOCK {
        a := fa.AllocPacked(b.Len());
        if a == 0 { return; }
        PackedApart(s, fa.Abs(), a, b.Len());
      } else {
        a := fa.Alloc(b.Len(), F.Live);
        if a == 0 { return; }
        TakenApart(s, fa.Abs(), F.Live, a, F.RoundUp(b.Len()));
      }
      PlaceSound(dev, live, saved, active, view, s.used, a, Slot(b));
      dev, view := Put(dev, a, Slot(b)), view[a := Slot(b)];
      Log(Writes(a, Slot(b)), w);
    }

    /** Copies the ciphertext at `from` verbatim to the tail: plain history, or the undo image of that slot. */
    method Evict(from: nat, pins: nat, undo: bool) returns (t: nat)
      requires Valid() && from in view && view[from].Slot? && from > 0
      modifies this`dev, this`view, this`ws, this`es, fa
      ensures Valid() && Logged(old(ws), old(es), ws, es, !undo || from !in live || from !in saved || t < saved[from])
      ensures t == 0 ==> view == old(view) && Gap() < 4168 + 16 * pins + old(view[from]).b.Len()
      ensures Gap() >= old(Gap()) - (if t == 0 then 0 else 4168 + 16 * pins + old(view[from]).b.Len())
      ensures t != 0 ==>
        && t !in old(view)
        && view == old(view)[t := Image(if undo then
            from else 0, if undo then active + 1 else 0, pins, old(view[from]).b)]
    {
      hide F.Inv, F.Allocated, Extents.Canonical, Cover, Sound, Range, F.Apart, Trail, Takes, Logged, Blob.Len;
      ghost var s := fa.Abs();
      ghost var w := Now(dev, live, active, view);
      LoggedNone(ws, es, w);
      assert from in dev.now && dev.now[from] == view[from] by { InNow(dev, live, saved, active, view, s.used, from); }
      var b := dev.now[from].b;
      var c := Image(if undo then from else 0, if undo then active + 1 else 0, pins, b);
      var total := 68 + 16 * pins + b.Len() + 4;
      t := fa.AllocTail(total);
      if t == 0 { return; }
      TakenApart(s, fa.Abs(), F.Tail, t, F.RoundUp(total));
      ImageFair(dev, live, saved, active, view, s.used, from, c, undo, t);
      PlaceSound(dev, live, saved, active, view, s.used, t, c);
      dev, view := Put(dev, t, c), view[t := c];
      Log(Writes(t, c), w);
      LoggedLess(old(ws), old(es), ws, es, Fair(w, Writes(t, c)), !undo || from !in live || from !in saved
          || t < saved[from]);
    }

    /** Hands a block to the deferred-free callback. */
    method Retire(addr: nat, len: nat)
      requires Valid()
      modifies this`retired
      ensures Valid() && retired == old(retired) + [(addr, len)]
    {
      retired := retired + [(addr, len)];
    }

    /** One barrier, then every deferred overwrite. */
    method FlushApply(pend: seq<Pending>, ghost tags: seq<nat>)
      requires Valid() && Ready(live, saved, active, view, pend, tags)
      modifies this`dev, this`view, this`saved, this`ws, this`es
      ensures Valid() && view == Goal(old(view), pend) && Logged(old(ws), old(es), ws, es, true)
      ensures forall x | x in saved :: x in old(saved) || Among(pend, x)
      ensures forall x | x in old(saved) :: x in saved
    {
      hide F.Falloc.Valid, Sound, Cell.Span, Trail, Takes, Logged, Fair, Goal, SavedAll, Put;
      ghost var w := Now(dev, live, active, view);
      LoggedNone(ws, es, w);
      GoalNone(view, pend);
      if |pend| == 0 { return; }
      FlushSound(dev, live, saved, active, view, fa.Abs().used);
      dev := Flushed(dev);
      BarrierTakes(w);
      Log(Barrier, w);
      SaveAllSound(dev, live, saved, active, view, fa.Abs().used, pend, tags);
      saved := SavedAll(live, saved, pend, tags);
      for j := 0 to |pend|
        invariant fa.Valid() && Sound(dev, live, saved, active, view, fa.Abs().used)
            && Trail(ws, es, Now(dev, live, active, view))
        invariant view == Goal(old(view), pend[..j]) && saved == SavedAll(live, old(saved), pend, tags)
        invariant Logged(old(ws), old(es), ws, es, true)
      {
        ghost var w1, ws1, es1 := Now(dev, live, active, view), ws, es;
        var p := pend[j];
        assert pend[j] == p && Among(pend, p.addr);
        SlotWaits(live, old(saved), active, old(view), pend, tags, j);
        OverSound(dev, live, saved, active, view, fa.Abs().used, p.addr, p.b);
        dev, view := Put(dev, p.addr, Slot(p.b)), view[p.addr := Slot(p.b)];
        Log(Overwrites(p.addr, p.b), w1);
        LoggedTwice(old(ws), old(es), ws1, es1, ws, es, true);
        GoalNext(old(view), pend, j);
      }
      assert pend[..|pend|] == pend;
    }
  }

  lemma GoalNone(view: Cells, pend: seq<Pending>)
    ensures Goal(view, pend[..0]) == view && (pend == [] ==> Goal(view, pend) == view)
  {}

  lemma GoalNext(view: Cells, pend: seq<Pending>, j: nat)
    requires j < |pend|
    ensures Goal(view, pend[..j + 1]) == Goal(view, pend[..j])[pend[j].addr := Slot(pend[j].b)]
  {
    assert pend[..j + 1][..j] == pend[..j];
  }

  lemma BarrierTakes(w: World)
    ensures Takes(w, Barrier, w.(dev := Flushed(w.dev))) && Fair(w, Barrier)
  {}

  /** The slot of a pending overwrite is as it was until its turn comes. */
  lemma SlotWaits(live: Live, saved: map<nat, nat>, active: nat, view: Cells, pend: seq<Pending>, tags: seq<nat>,
      j: nat)
    requires Ready(live, saved, active, view, pend, tags) && j < |pend|
    ensures var x, g := pend[j].addr, Goal(view, pend[..j]);
            x in g && g[x].Slot? && SlotSpan(pend[j].b) == g[x].Span()
  {
    hide Goal, Cell.Span;
    assert Backed(live, saved, active, view, pend[j], tags[j]);
    GoalKeeps(view, pend[..j], pend[j].addr);
  }

  /**
   The first undo image of a committed slot holds its committed bytes; a later one is fair below the one that
   does.
   */
  lemma ImageFair(dev: Dev, live: Live, saved: map<nat, nat>, active: nat, view: Cells, used: F.Bytes, from: nat,
      c: Cell, undo: bool, t: nat)
    requires Sound(dev, live, saved, active, view, used) && from in view && view[from].Slot? && from > 0
    requires c.Image? && c.was == view[from].b && c.inplace == (if undo then from else 0)
    ensures Meant(view, c, active)
    ensures !undo || from !in live || from !in saved || t < saved[from] ==>
        Fair(Now(dev, live, active, view), Writes(t, c))
  {
    hide Cell.Span, Seen;
    if undo && from in live && from !in saved { assert Whole(dev, from, live[from]); }
    if undo && from in live && from in saved { assert GoodImage(dev, active, from, live[from], saved[from]); }
  }

  lemma InNow(dev: Dev, live: Live, saved: map<nat, nat>, active: nat, view: Cells, used: F.Bytes, a: nat)
    requires Sound(dev, live, saved, active, view, used) && a in view
    ensures a in dev.now && dev.now[a] == view[a]
  {}
}
