/**
 In-place overwrite with undo images (kernel/sfs_cow.c:50-96 and 511-588, the
 mount-time rollback kernel/sfs_write.c:899-960).  A device with a write cache,
 what a crash may leave of it, and why rolling back restores every committed slot.
 */
module Undo {
  import opened Base
  import opened Extents
  import F = Falloc

  const BLOCK: nat := 4096

  datatype Suite = Plain | Xts | Gcm

  /** A sealed fragment: what decrypts, and under which context. */
  datatype Blob = Blob(suite: Suite, frag: nat, dot: nat, plain: seq<Byte>) {
    /** Ciphertext length; GCM appends a 16-byte tag. */
    function Len(): nat { |plain| + (if suite.Gcm? then 16 else 0) }
  }

  /** What one allocated piece of the device holds; Junk is a torn or foreign write. */
  datatype Cell =
    | Slot(b: Blob)
    | Image(inplace: nat, target: nat, pins: nat, was: Blob)
    | Junk(size: nat)
  {
    /** Bytes a write of this cell touches: packed fragments are written exactly, whole ones padded to blocks. */
    function Span(): nat {
      match this
      case Slot(b) => if b.Len() < BLOCK then b.Len() else F.RoundUp(b.Len())
      case Image(_, _, pins, b) => F.RoundUp(68 + 16 * pins + b.Len() + 4)
      case Junk(n) => n
    }
  }

  type Cells = map<nat, Cell>

  predicate Overlap(a: nat, n: nat, b: nat, m: nat) { a == b || (a < b + m && b < a + n) }

  /** Writing c at a destroys every cell it overlaps. */
  function Overwrite(d: Cells, a: nat, c: Cell): Cells {
    (map t | t in d && !Overlap(t, d[t].Span(), a, c.Span()) :: d[t])[a := c]
  }

  datatype Write = Write(addr: nat, cell: Cell)

  /** durable: survived the last flush; inflight: written since; now: what a read returns. */
  datatype Dev = Dev(durable: Cells, inflight: seq<Write>, now: Cells)

  ghost predicate Could(dev: Dev, t: nat, c: Cell) {
    (t in dev.durable && dev.durable[t] == c) || Write(t, c) in dev.inflight
  }

  ghost predicate Untouched(dev: Dev, t: nat) {
    && t in dev.durable
    && forall i | 0 <= i < |dev.inflight| ::
         !Overlap(t, dev.durable[t].Span(), dev.inflight[i].addr, dev.inflight[i].cell.Span())
  }

  /** Any subset of the cached writes may have landed, and any of them may be torn. */
  ghost predicate Crash(dev: Dev, after: Cells) {
    && (forall t | t in after :: Could(dev, t, after[t]) || after[t].Junk?)
    && (forall t | Untouched(dev, t) :: t in after && after[t] == dev.durable[t])
  }

  function Put(dev: Dev, a: nat, c: Cell): Dev {
    Dev(dev.durable, dev.inflight + [Write(a, c)], Overwrite(dev.now, a, c))
  }

  function Flushed(dev: Dev): Dev { Dev(dev.now, [], dev.now) }

  /** The read view is always one of the possible crash images. */
  lemma PutCoherent(dev: Dev, a: nat, c: Cell)
    requires Crash(dev, dev.now)
    ensures Crash(Put(dev, a, c), Put(dev, a, c).now)
  {
    var dev' := Put(dev, a, c);
    assert dev'.inflight[|dev.inflight|] == Write(a, c);
    forall t | t in dev'.now ensures Could(dev', t, dev'.now[t]) || dev'.now[t].Junk?
    {
      if t != a { assert Could(dev, t, dev.now[t]) || dev.now[t].Junk?; }
    }
    forall t | Untouched(dev', t) ensures t in dev'.now && dev'.now[t] == dev'.durable[t]
    {
      StillUntouched(dev, a, c, t);
      assert !Overlap(t, dev.durable[t].Span(), a, c.Span());
    }
  }

  lemma StillUntouched(dev: Dev, a: nat, c: Cell, t: nat)
    ensures Untouched(Put(dev, a, c), t) <==>
            Untouched(dev, t) && !Overlap(t, dev.durable[t].Span(), a, c.Span())
  {
    var dev' := Put(dev, a, c);
    if Untouched(dev, t) && !Overlap(t, dev.durable[t].Span(), a, c.Span()) {
      forall i | 0 <= i < |dev'.inflight|
        ensures !Overlap(t, dev'.durable[t].Span(), dev'.inflight[i].addr, dev'.inflight[i].cell.Span())
      {
        if i < |dev.inflight| { assert dev'.inflight[i] == dev.inflight[i]; }
      }
    }
    if Untouched(dev', t) {
      forall i | 0 <= i < |dev.inflight|
        ensures !Overlap(t, dev.durable[t].Span(), dev.inflight[i].addr, dev.inflight[i].cell.Span())
      {
        assert dev'.inflight[i] == dev.inflight[i];
      }
      assert dev'.inflight[|dev.inflight|] == Write(a, c);
    }
  }

  // ---------------------------------------------------------------- the undo rule

  /** The rollback applies images of overwrites whose commit never landed. */
  predicate Applicable(c: Cell, active: nat) { c.Image? && c.inplace != 0 && c.target > active }

  /** The slots in use, committed or not, with the bytes each takes. */
  type Slots = map<nat, nat>

  /** The slots the published state names, with their committed ciphertext. */
  type Live = map<nat, Blob>

  ghost function SlotSpan(b: Blob): nat { Slot(b).Span() }

  ghost predicate Off(a: nat, n: nat, slots: Slots) { forall x | x in slots :: !Overlap(a, n, x, slots[x]) }

  ghost predicate Distinct(slots: Slots) {
    forall x, y | x in slots && y in slots && x != y :: !Overlap(x, slots[x], y, slots[y])
  }

  /** An image lies off every slot and is as long as the slot it would restore. */
  ghost predicate Aims(t: nat, c: Cell, slots: Slots)
    requires c.Image?
  {
    c.inplace in slots && SlotSpan(c.was) == slots[c.inplace] && Off(t, c.Span(), slots)
  }

  ghost predicate Layout(dev: Dev, slots: Slots, active: nat) {
    Distinct(slots) && forall t, c | Could(dev, t, c) && Applicable(c, active) :: Aims(t, c, slots)
  }

  // ---------------------------------------------------------------- rollback

  function RollOne(d: Cells, active: nat, t: nat): Cells {
    if t in d && Applicable(d[t], active) then Overwrite(d, d[t].inplace, Slot(d[t].was)) else d
  }

  function Rolled(d: Cells, active: nat, scan: seq<nat>): Cells
    decreases |scan|
  {
    if scan == [] then d else Rolled(RollOne(d, active, scan[0]), active, scan[1..])
  }

  /** The tail scan lists every applicable image in ascending address order. */
  ghost predicate Scans(d: Cells, active: nat, scan: seq<nat>) {
    && (forall i, j | 0 <= i < j < |scan| :: scan[i] < scan[j])
    && (forall t | t in d && Applicable(d[t], active) :: t in scan)
  }

  /** Like Layout, of one cell map. */
  ghost predicate Tidy(d: Cells, slots: Slots, active: nat) {
    Distinct(slots) && forall t | t in d && Applicable(d[t], active) :: Aims(t, d[t], slots)
  }

  /** Rolling one image back changes its slot and no image and no other slot. */
  lemma RollOneTidy(d: Cells, slots: Slots, active: nat, t: nat)
    requires Tidy(d, slots, active) && t in d && Applicable(d[t], active)
    ensures var d' := RollOne(d, active, t); var x := d[t].inplace;
      && Tidy(d', slots, active) && x in d' && d'[x] == Slot(d[t].was)
      && (forall u | u in d && Applicable(d[u], active) :: u in d' && d'[u] == d[u])
      && (forall u | u in d' && Applicable(d'[u], active) :: u in d && d[u] == d'[u])
      && (forall y | y in slots && y != x && y in d && d[y].Span() == slots[y] :: y in d' && d'[y] == d[y])
  {
    hide Cell.Span;
    var x := d[t].inplace;
    assert Aims(t, d[t], slots);
    forall u | u in d && Applicable(d[u], active) ensures !Overlap(u, d[u].Span(), x, SlotSpan(d[t].was)) && u != x
    {
      assert Aims(u, d[u], slots);
    }
  }

  /** x is right and stays right, or a right image is still to come and everything after it is right too. */
  ghost predicate Heals(d: Cells, active: nat, scan: seq<nat>, x: nat, b: Blob, i: int) {
    && -1 <= i < |scan|
    && (forall j | 0 <= j < |scan| && i <= j :: ForSlot(d, active, scan[j], x) ==> d[scan[j]].was == b)
    && (i == -1 ==> x in d && d[x] == Slot(b))
    && (i >= 0 ==> ForSlot(d, active, scan[i], x))
  }

  predicate ForSlot(d: Cells, active: nat, t: nat, x: nat) { t in d && Applicable(d[t], active) && d[t].inplace == x }

  lemma {:induction false} RolledHeals(d: Cells, slots: Slots, active: nat, scan: seq<nat>, x: nat, b: Blob, i: int)
    requires Tidy(d, slots, active) && x in slots && slots[x] == SlotSpan(b) && Heals(d, active, scan, x, b, i)
    ensures Back(d, active, scan, x, b)
    decreases |scan|
  {
    hide Cell.Span;
    if scan != [] {
      var t, d' := scan[0], RollOne(d, active, scan[0]);
      if t in d && Applicable(d[t], active) { RollOneTidy(d, slots, active, t); }
      var i' := if i > 0 then i - 1 else -1;
      assert forall j | 0 <= j < |scan[1..]| :: scan[1..][j] == scan[j + 1];
      assert forall j | 0 <= j < |scan[1..]| :: ForSlot(d', active, scan[1..][j], x) ==>
          ForSlot(d, active, scan[j + 1], x) && d'[scan[1..][j]].was == d[scan[j + 1]].was;
      if i > 0 { assert ForSlot(d', active, scan[1..][i'], x); }
      RolledHeals(d', slots, active, scan[1..], x, b, i');
    }
  }

  /** Rollback leaves the slot with these bytes. */
  ghost predicate Back(d: Cells, active: nat, scan: seq<nat>, x: nat, b: Blob) {
    var d' := Rolled(d, active, scan); x in d' && d'[x] == Slot(b)
  }

  lemma CrashTidy(dev: Dev, slots: Slots, active: nat, after: Cells)
    requires Layout(dev, slots, active) && Crash(dev, after)
    ensures Tidy(after, slots, active)
  {
    hide Cell.Span, Off;
    forall t | t in after && Applicable(after[t], active) ensures Aims(t, after[t], slots)
    {
      assert Could(dev, t, after[t]);
    }
  }

  // ---------------------------------------------------------------- what rollback does, exactly

  /** Some listed image restores slot k, and scan[i] is the last one that does. */
  ghost predicate LastFor(d: Cells, active: nat, scan: seq<nat>, k: nat, i: nat) {
    && i < |scan| && ForSlot(d, active, scan[i], k)
    && forall j | i < j < |scan| :: !ForSlot(d, active, scan[j], k)
  }

  ghost predicate Aimed(d: Cells, active: nat, scan: seq<nat>, k: nat) {
    exists i :: 0 <= i < |scan| && ForSlot(d, active, scan[i], k)
  }

  /** A restored slot covers part of cell k. */
  ghost predicate Strikes(d: Cells, active: nat, t: nat, k: nat) {
    t in d && Applicable(d[t], active) && k in d && Overlap(k, d[k].Span(), d[t].inplace, SlotSpan(d[t].was))
  }

  ghost predicate Struck(d: Cells, active: nat, scan: seq<nat>, k: nat) {
    exists i :: 0 <= i < |scan| && Strikes(d, active, scan[i], k)
  }

  ghost predicate SameImages(d: Cells, d': Cells, active: nat) {
    && (forall u | u in d && Applicable(d[u], active) :: u in d' && d'[u] == d[u])
    && (forall u | u in d' && Applicable(d'[u], active) :: u in d && d[u] == d'[u])
  }

  /** The slot ends up with the last listed image; everything not covered by a restored slot is unchanged. */
  lemma {:induction false} RolledAt(d: Cells, slots: Slots, active: nat, scan: seq<nat>, k: nat)
    requires Tidy(d, slots, active)
    ensures var d' := Rolled(d, active, scan);
      && Tidy(d', slots, active) && SameImages(d, d', active)
      && (forall i: nat | LastFor(d, active, scan, k, i) :: k in d' && d'[k] == Slot(d[scan[i]].was))
      && (!Aimed(d, active, scan, k) ==>
          (k in d' <==> k in d && !Struck(d, active, scan, k)) && (k in d' ==> d'[k] == d[k]))
    decreases |scan|
  {
    hide Cell.Span, Off;
    if scan != [] {
      var t, d1, rest := scan[0], RollOne(d, active, scan[0]), scan[1..];
      assert forall j | 0 <= j < |rest| :: rest[j] == scan[j + 1];
      if t in d && Applicable(d[t], active) { RollOneTidy(d, slots, active, t); }
      RolledAt(d1, slots, active, rest, k);
      var d' := Rolled(d1, active, rest);
      forall i: nat | LastFor(d, active, scan, k, i) ensures k in d' && d'[k] == Slot(d[scan[i]].was)
      {
        if i > 0 { assert LastFor(d1, active, rest, k, i - 1); } else { LastIsFirst(d, slots, active, scan, k); }
      }
      if !Aimed(d, active, scan, k) { NotAimed(d, slots, active, scan, k); }
    }
  }

  /** The first listed image is the only one for k: nothing later touches k again. */
  lemma LastIsFirst(d: Cells, slots: Slots, active: nat, scan: seq<nat>, k: nat)
    requires Tidy(d, slots, active) && LastFor(d, active, scan, k, 0)
    ensures var d1 := RollOne(d, active, scan[0]);
      !Aimed(d1, active, scan[1..], k) && k in d1 && d1[k] == Slot(d[scan[0]].was) && !Struck(d1, active, scan[1..], k)
  {
    hide Cell.Span, Off;
    var d1, rest := RollOne(d, active, scan[0]), scan[1..];
    RollOneTidy(d, slots, active, scan[0]);
    forall j | 0 <= j < |rest| ensures !ForSlot(d1, active, rest[j], k) && !Strikes(d1, active, rest[j], k)
    {
      assert rest[j] == scan[j + 1];
      if rest[j] in d1 && Applicable(d1[rest[j]], active)
          { assert d1[rest[j]] == d[rest[j]] && d[rest[j]].inplace != k; }
    }
  }

  lemma NotAimed(d: Cells, slots: Slots, active: nat, scan: seq<nat>, k: nat)
    requires Tidy(d, slots, active) && scan != [] && !Aimed(d, active, scan, k)
    ensures var d1, rest := RollOne(d, active, scan[0]), scan[1..];
      && !Aimed(d1, active, rest, k) && (k in d1 ==> k in d && d1[k] == d[k])
      && ((k in d1 && !Struck(d1, active, rest, k)) <==> (k in d && !Struck(d, active, scan, k)))
  {
    hide Cell.Span, Off;
    var t, d1, rest := scan[0], RollOne(d, active, scan[0]), scan[1..];
    assert forall j | 0 <= j < |rest| :: rest[j] == scan[j + 1];
    if t in d && Applicable(d[t], active) { RollOneTidy(d, slots, active, t); }
    assert !ForSlot(d, active, t, k);
    forall j | 0 <= j < |rest| ensures ForSlot(d1, active, rest[j], k) ==> ForSlot(d, active, scan[j + 1], k) {}
    assert k in d1 ==> k in d && d1[k] == d[k];
    assert k in d && k !in d1 <==> k in d && Strikes(d, active, t, k);
    if k in d1 {
      forall j | 0 <= j < |rest| ensures Strikes(d1, active, rest[j], k) <==> Strikes(d, active, scan[j + 1], k) {}
      if Struck(d, active, scan, k) {
        var i :| 0 <= i < |scan| && Strikes(d, active, scan[i], k);
        assert i > 0 && Strikes(d1, active, rest[i - 1], k);
      }
      if Struck(d1, active, rest, k) {
        var j :| 0 <= j < |rest| && Strikes(d1, active, rest[j], k);
        assert Strikes(d, active, scan[j + 1], k);
      }
    }
  }

  /** A second rollback changes nothing more. */
  lemma RollbackIdempotent(d: Cells, slots: Slots, active: nat, scan: seq<nat>)
    requires Tidy(d, slots, active)
    ensures Rolled(Rolled(d, active, scan), active, scan) == Rolled(d, active, scan)
  {
    hide Cell.Span, Off, Rolled;
    var d1 := Rolled(d, active, scan);
    var d2 := Rolled(d1, active, scan);
    RolledAt(d, slots, active, scan, 0);
    forall k: nat ensures (k in d1 <==> k in d2) && (k in d1 && k in d2 ==> d1[k] == d2[k])
    {
      RolledAt(d, slots, active, scan, k);
      RolledAt(d1, slots, active, scan, k);
      SameAims(d, d1, active, scan, k);
      if Aimed(d, active, scan, k) {
        var i := FindLast(d, active, scan, k);
        assert LastFor(d1, active, scan, k, i);
      } else if k in d1 {
        SameStrikes(d, d1, active, scan, k);
      }
    }
  }

  lemma SameAims(d: Cells, d1: Cells, active: nat, scan: seq<nat>, k: nat)
    requires SameImages(d, d1, active)
    ensures Aimed(d, active, scan, k) <==> Aimed(d1, active, scan, k)
    ensures forall i: nat | LastFor(d, active, scan, k, i) :: LastFor(d1, active, scan, k, i)
  {
    assert forall t :: ForSlot(d, active, t, k) <==> ForSlot(d1, active, t, k);
  }

  lemma SameStrikes(d: Cells, d1: Cells, active: nat, scan: seq<nat>, k: nat)
    requires SameImages(d, d1, active) && k in d && k in d1 && d[k] == d1[k]
    ensures Struck(d, active, scan, k) <==> Struck(d1, active, scan, k)
  {
    assert forall t :: Strikes(d, active, t, k) <==> Strikes(d1, active, t, k);
  }

  lemma {:induction false} FindLast(d: Cells, active: nat, scan: seq<nat>, k: nat) returns (i: nat)
    requires Aimed(d, active, scan, k)
    ensures LastFor(d, active, scan, k, i)
  {
    i := |scan| - 1;
    while !ForSlot(d, active, scan[i], k)
      invariant i < |scan| && forall j | i < j < |scan| :: !ForSlot(d, active, scan[j], k)
      decreases i
    {
      if i == 0 {
        assert forall j | 0 <= j < |scan| :: !ForSlot(d, active, scan[j], k);
        assert false;
      }
      i := i - 1;
    }
  }

  /** The slot ends with the highest-addressed applicable image of it. */
  lemma LastWins(d: Cells, slots: Slots, active: nat, scan: seq<nat>, x: nat, b: Blob, i: nat)
    requires Tidy(d, slots, active) && LastFor(d, active, scan, x, i)
    ensures Back(d, active, scan, x, b) <==> d[scan[i]].was == b
  {
    hide Cell.Span, Rolled;
    RolledAt(d, slots, active, scan, x);
  }

  // ---------------------------------------------------------------- when a device is safe to crash

  /** Slot x is durable with bytes b and nothing in the cache touches it. */
  ghost predicate Whole(dev: Dev, x: nat, b: Blob) { Untouched(dev, x) && dev.durable[x] == Slot(b) }

  ghost predicate ImageFor(c: Cell, active: nat, x: nat) { Applicable(c, active) && c.inplace == x }

  /** A durable image of slot x that holds b. */
  ghost predicate GoodImage(dev: Dev, active: nat, x: nat, b: Blob, t: nat) {
    Untouched(dev, t) && ImageFor(dev.durable[t], active, x) && dev.durable[t].was == b
  }

  /** Every image of x that a crash could leave at or above t0 holds b. */
  ghost predicate GoodFrom(dev: Dev, active: nat, x: nat, b: Blob, t0: nat) {
    forall t: nat, c | Could(dev, t, c) && ImageFor(c, active, x) && t >= t0 :: c.was == b
  }

  /** Slot x is intact and all its images are right, or a right image is durable with none but right ones above it. */
  ghost predicate Safe(dev: Dev, active: nat, x: nat, b: Blob) {
    (Whole(dev, x, b) && GoodFrom(dev, active, x, b, 0)) || exists t ::
        GoodImage(dev, active, x, b, t) && GoodFrom(dev, active, x, b, t)
  }

  /** Whatever a crash leaves, rollback ends with b in slot x. */
  ghost predicate Restored(dev: Dev, active: nat, x: nat, b: Blob) {
    forall after: Cells, scan: seq<nat> | Crash(dev, after) && Scans(after, active, scan) ::
        Back(after, active, scan, x, b)
  }

  lemma SafeRestores(dev: Dev, slots: Slots, active: nat, x: nat, b: Blob, after: Cells, scan: seq<nat>)
    requires Layout(dev, slots, active) && x in slots && slots[x] == SlotSpan(b) && Safe(dev, active, x, b)
    requires Crash(dev, after) && Scans(after, active, scan)
    ensures Back(after, active, scan, x, b)
  {
    hide Cell.Span, Off, Rolled, Layout, Distinct, Aims, Untouched;
    CrashTidy(dev, slots, active, after);
    if Whole(dev, x, b) && GoodFrom(dev, active, x, b, 0) {
      HealsFrom(dev, active, x, b, after, scan, -1, 0);
      RolledHeals(after, slots, active, scan, x, b, -1);
    } else {
      var t :| GoodImage(dev, active, x, b, t) && GoodFrom(dev, active, x, b, t);
      UntouchedIn(dev, t);
      assert t in after && after[t] == dev.durable[t];
      var i :| 0 <= i < |scan| && scan[i] == t;
      HealsFrom(dev, active, x, b, after, scan, i, t);
      RolledHeals(after, slots, active, scan, x, b, i);
    }
  }

  lemma HealsFrom(dev: Dev, active: nat, x: nat, b: Blob, after: Cells, scan: seq<nat>, i: int, t0: nat)
    requires Crash(dev, after) && Scans(after, active, scan) && GoodFrom(dev, active, x, b, t0)
    requires if i == -1 then
        t0 == 0 && x in after && after[x] == Slot(b) else
          0 <= i < |scan| && scan[i] == t0 && ForSlot(after, active, t0, x)
    ensures Heals(after, active, scan, x, b, i)
  {
    hide Untouched;
    forall j | 0 <= j < |scan| && i <= j ensures ForSlot(after, active, scan[j], x) ==> after[scan[j]].was == b
    {
      if ForSlot(after, active, scan[j], x) {
        assert Could(dev, scan[j], after[scan[j]]);
        assert scan[j] >= t0;
      }
    }
  }

  /** What surely survives a crash. */
  ghost function Core(dev: Dev): Cells { map t | t in dev.durable && Untouched(dev, t) :: dev.durable[t] }

  lemma CoreCrash(dev: Dev)
    ensures Crash(dev, Core(dev))
  {}

  /** One cached or durable cell on top of what surely survives. */
  lemma CorePlus(dev: Dev, u: nat, c: Cell)
    requires Could(dev, u, c)
    ensures Crash(dev, Core(dev)[u := c])
  {
    if Write(u, c) in dev.inflight { CachedTouches(dev, u, c); }
  }

  lemma CachedTouches(dev: Dev, t: nat, c: Cell)
    requires Write(t, c) in dev.inflight
    ensures !Untouched(dev, t)
  {
    var i :| 0 <= i < |dev.inflight| && dev.inflight[i] == Write(t, c);
    assert t in dev.durable ==> Overlap(t, dev.durable[t].Span(), dev.inflight[i].addr, dev.inflight[i].cell.Span());
  }

  /** All addresses below n that d has, in order. */
  lemma {:induction false} Listing(d: Cells, n: nat) returns (scan: seq<nat>)
    ensures forall i, j | 0 <= i < j < |scan| :: scan[i] < scan[j]
    ensures forall t: nat :: t in scan <==> t in d && t < n
  {
    if n == 0 {
      scan := [];
    } else {
      scan := Listing(d, n - 1);
      assert forall i | 0 <= i < |scan| :: scan[i] in scan;
      if n - 1 in d { scan := scan + [n - 1]; }
    }
  }

  lemma {:induction false} Ceiling(s: set<nat>) returns (n: nat)
    ensures forall t | t in s :: t < n
  {
    if s == {} {
      n := 0;
    } else {
      var t :| t in s;
      var m := Ceiling(s - {t});
      n := if t < m then m else t + 1;
      assert forall u | u in s :: u == t || u in s - {t};
    }
  }

  lemma ScanOf(d: Cells, active: nat) returns (scan: seq<nat>)
    ensures Scans(d, active, scan)
  {
    var n := Ceiling(d.Keys);
    scan := Listing(d, n);
  }

  /** A wrong image above every right one that surely survives: rollback ends with wrong bytes. */
  lemma WrongWins(dev: Dev, slots: Slots, active: nat, x: nat, b: Blob, u: nat, c: Cell) returns (after: Cells,
      scan: seq<nat>)
    requires Layout(dev, slots, active) && Could(dev, u, c) && ImageFor(c, active, x) && c.was != b
    requires forall t: nat | GoodImage(dev, active, x, b, t) :: t < u
    ensures Crash(dev, after) && Scans(after, active, scan) && !Back(after, active, scan, x, b)
  {
    hide Cell.Span, Off, Rolled, Layout, Distinct, Aims, Back;
    after := Core(dev)[u := c];
    CorePlus(dev, u, c);
    CrashTidy(dev, slots, active, after);
    scan := ScanOf(after, active);
    assert u in scan;
    var k :| 0 <= k < |scan| && scan[k] == u;
    assert ForSlot(after, active, scan[k], x);
    var i := FindLast(after, active, scan, x);
    assert scan[i] >= u;
    var last := scan[i];
    assert last != u && after[last].was == b ==> GoodImage(dev, active, x, b, last);
    LastWins(after, slots, active, scan, x, b, i);
  }

  /** The highest right image that surely survives. */
  lemma {:induction false} Highest(dev: Dev, active: nat, x: nat, b: Blob, s: set<nat>) returns (h: nat)
    requires s != {} && forall t | t in s :: GoodImage(dev, active, x, b, t)
    ensures h in s && forall t | t in s :: t <= h
  {
    hide GoodImage;
    h :| h in s;
    assert forall t | t in s :: t == h || t in s - {h};
    if s - {h} != {} {
      var g := Highest(dev, active, x, b, s - {h});
      if h < g { h := g; }
    }
  }

  /** No surviving image of x and the slot not intact: rollback cannot bring it back. */
  lemma NothingToRestore(dev: Dev, slots: Slots, active: nat, x: nat, b: Blob) returns (after: Cells, scan: seq<nat>)
    requires Layout(dev, slots, active) && !Whole(dev, x, b) && GoodFrom(dev, active, x, b, 0)
    requires forall t: nat :: !GoodImage(dev, active, x, b, t)
    ensures Crash(dev, after) && Scans(after, active, scan) && !Back(after, active, scan, x, b)
  {
    hide Cell.Span, Off, Rolled, Layout, Distinct, Aims;
    after := Core(dev);
    CoreCrash(dev);
    CrashTidy(dev, slots, active, after);
    scan := ScanOf(after, active);
    forall t | t in after ensures !ForSlot(after, active, t, x) {
      assert Could(dev, t, after[t]);
      assert !GoodImage(dev, active, x, b, t);
    }
    RolledAt(after, slots, active, scan, x);
  }

  /** An unsafe device has a crash that loses the committed bytes. */
  lemma UnsafeLoses(dev: Dev, slots: Slots, active: nat, x: nat, b: Blob) returns (after: Cells, scan: seq<nat>)
    requires Layout(dev, slots, active) && !Safe(dev, active, x, b)
    ensures Crash(dev, after) && Scans(after, active, scan) && !Back(after, active, scan, x, b)
  {
    hide Cell.Span, Off, Rolled, Layout, Distinct, Aims, Back, Crash, Scans, Untouched;
    var good := set t | t in dev.durable && GoodImage(dev, active, x, b, t);
    forall t: nat | GoodImage(dev, active, x, b, t) ensures t in good { UntouchedIn(dev, t); }
    var h := 0;
    if good != {} { h := Highest(dev, active, x, b, good); }
    if GoodFrom(dev, active, x, b, h) {
      assert good == {};
      after, scan := NothingToRestore(dev, slots, active, x, b);
    } else {
      var u: nat, c :| Could(dev, u, c) && ImageFor(c, active, x) && u >= h && c.was != b;
      if good != {} && u == h { NotThere(dev, active, x, b, h, c); }
      after, scan := WrongWins(dev, slots, active, x, b, u, c);
    }
  }

  lemma UntouchedIn(dev: Dev, t: nat)
    ensures Untouched(dev, t) ==> t in dev.durable
  {}

  /** Nothing else can be where a right image surely survives. */
  lemma NotThere(dev: Dev, active: nat, x: nat, b: Blob, t: nat, c: Cell)
    requires GoodImage(dev, active, x, b, t) && Could(dev, t, c)
    ensures c == dev.durable[t]
  {
    if Write(t, c) in dev.inflight { CachedTouches(dev, t, c); }
  }

  /** Safety is exactly what a caller sees before the crash: every crash is undone if and only if the device is safe. */
  lemma RestoredIff(dev: Dev, slots: Slots, active: nat, x: nat, b: Blob)
    requires Layout(dev, slots, active) && x in slots && slots[x] == SlotSpan(b)
    ensures Restored(dev, active, x, b) <==> Safe(dev, active, x, b)
  {
    hide Cell.Span, Layout, Safe, Back, Crash, Scans;
    if Safe(dev, active, x, b) {
      forall after: Cells, scan: seq<nat> | Crash(dev, after)
          && Scans(after, active, scan) ensures Back(after, active, scan, x, b)
      {
        SafeRestores(dev, slots, active, x, b, after, scan);
      }
    } else {
      var after, scan := UnsafeLoses(dev, slots, active, x, b);
    }
  }

  // ---------------------------------------------------------------- whole runs

  datatype World = World(dev: Dev, slots: Slots, live: Live, active: nat)

  ghost predicate Sane(w: World) {
    && Layout(w.dev, w.slots, w.active) && Crash(w.dev, w.dev.now)
    && forall x | x in w.live :: x in w.slots && w.slots[x] == SlotSpan(w.live[x])
  }

  ghost predicate AllSafe(w: World) { forall x | x in w.live :: Safe(w.dev, w.active, x, w.live[x]) }

  /** One event in the life of the content area, crashes included. */
  datatype Event =
    | Writes(addr: nat, cell: Cell)
    | Barrier
    | Overwrites(slot: nat, b: Blob)
    | Publishes(live: Live, slots: Slots)
    | Crashes(after: Cells)

  /** Freshly allocated space: off every slot and every image a crash could leave. */
  ghost predicate Vacant(w: World, a: nat, n: nat) {
    Off(a, n, w.slots) && forall t: nat, v | Could(w.dev, t, v) && Applicable(v, w.active) ::
        !Overlap(t, v.Span(), a, n)
  }

  ghost function WithCell(slots: Slots, a: nat, c: Cell): Slots { if c.Slot? then slots[a := c.Span()] else slots }

  /** What may happen; nothing is said about the order in which images lie in the tail. */
  ghost predicate Takes(w: World, e: Event, w': World) {
    match e
    case Writes(a, c) =>
      && Vacant(w, a, c.Span())
      && (Applicable(c, w.active) ==> c.inplace in w.slots && SlotSpan(c.was) == w.slots[c.inplace])
      && w' == w.(dev := Put(w.dev, a, c), slots := WithCell(w.slots, a, c))
    case Barrier => w' == w.(dev := Flushed(w.dev))
    case Overwrites(x, b) => x in w.slots && SlotSpan(b) == w.slots[x] && w' == w.(dev := Put(w.dev, x, Slot(b)))
    case Publishes(live, slots) =>
      && w.dev.inflight == [] && w.dev.durable == w.dev.now && Distinct(slots)
      && (forall t | t in w.dev.now && w.dev.now[t].Image? :: w.dev.now[t].target <= w.active + 1)
      && (forall x | x in live ::
          x in slots && slots[x] == SlotSpan(live[x]) && x in w.dev.now && w.dev.now[x] == Slot(live[x]))
      && w' == World(w.dev, slots, live, w.active + 1)
    case Crashes(after) => Crash(w.dev, after) && w' == w.(dev := Dev(after, [], after))
  }

  /**
   What keeps the committed slots restorable: an image of other than the committed
   bytes goes below a durable image that has them, and a committed slot is only
   overwritten once such an image is durable.
   */
  ghost predicate Fair(w: World, e: Event) {
    match e
    case Writes(a, c) =>
        Wrong(w, c) ==> exists t: nat :: GoodImage(w.dev, w.active, c.inplace, w.live[c.inplace], t) && t > a
    case Overwrites(x, _) => x in w.live ==> exists t: nat :: GoodImage(w.dev, w.active, x, w.live[x], t)
    case _ => true
  }

  /** An applicable image of a committed slot that does not hold its committed bytes. */
  ghost predicate Wrong(w: World, c: Cell) { Applicable(c, w.active) && c.inplace in w.live
      && c.was != w.live[c.inplace] }

  lemma CouldPut(dev: Dev, a: nat, c: Cell, t: nat, v: Cell)
    ensures Could(Put(dev, a, c), t, v) <==> Could(dev, t, v) || (t == a && v == c)
  {
    var dev' := Put(dev, a, c);
    assert dev'.inflight[|dev.inflight|] == Write(a, c);
    if Write(t, v) in dev.inflight {
      var i :| 0 <= i < |dev.inflight| && dev.inflight[i] == Write(t, v);
      assert dev'.inflight[i] == Write(t, v);
    }
  }

  lemma PutDurable(dev: Dev, a: nat, c: Cell)
    ensures Put(dev, a, c).durable == dev.durable
  {}

  /** A write off the slots and images leaves every surviving image and every other intact slot as it was. */
  lemma PutKeeps(dev: Dev, slots: Slots, active: nat, a: nat, c: Cell, x: nat, b: Blob)
    requires Layout(dev, slots, active) && x in slots && slots[x] == SlotSpan(b)
    requires forall t: nat, v | Could(dev, t, v) && Applicable(v, active) :: !Overlap(t, v.Span(), a, c.Span())
    ensures forall t: nat :: GoodImage(Put(dev, a, c), active, x, b, t) <==> GoodImage(dev, active, x, b, t)
    ensures !Overlap(x, slots[x], a, c.Span()) ==> (Whole(Put(dev, a, c), x, b) <==> Whole(dev, x, b))
    ensures Overlap(x, slots[x], a, c.Span()) ==> !Whole(Put(dev, a, c), x, b)
  {
    hide Cell.Span, Untouched, Layout, Put;
    PutDurable(dev, a, c);
    forall t: nat ensures GoodImage(Put(dev, a, c), active, x, b, t) <==> GoodImage(dev, active, x, b, t)
    {
      StillUntouched(dev, a, c, t);
      UntouchedIn(dev, t);
      if GoodImage(dev, active, x, b, t) { assert Could(dev, t, dev.durable[t]); }
    }
    StillUntouched(dev, a, c, x);
    UntouchedIn(dev, x);
  }

  lemma PutGoodFrom(dev: Dev, active: nat, a: nat, c: Cell, x: nat, b: Blob, t0: nat)
    ensures GoodFrom(Put(dev, a, c), active, x, b, t0) <==>
            GoodFrom(dev, active, x, b, t0) && (ImageFor(c, active, x) && a >= t0 ==> c.was == b)
  {
    hide Could, Put;
    forall t: nat, v ensures Could(Put(dev, a, c), t, v) <==> Could(dev, t, v) || (t == a && v == c)
        { CouldPut(dev, a, c, t, v); }
    assert Could(Put(dev, a, c), a, c);
  }

  /** A wrong image keeps the slot safe if and only if a right one is durable above it. */
  lemma WriteSafeIff(w: World, a: nat, c: Cell, x: nat)
    requires Sane(w) && Vacant(w, a, c.Span()) && x in w.live && Safe(w.dev, w.active, x, w.live[x])
    ensures Safe(Put(w.dev, a, c), w.active, x, w.live[x]) <==>
            (Wrong(w, c) && c.inplace == x ==> exists t: nat :: GoodImage(w.dev, w.active, x, w.live[x], t) && t > a)
  {
    hide Cell.Span, GoodImage, GoodFrom, Whole, Layout, Crash, Put;
    var dev, active, b := w.dev, w.active, w.live[x];
    var dev' := Put(dev, a, c);
    PutKeeps(dev, w.slots, active, a, c, x, b);
    assert !Overlap(x, w.slots[x], a, c.Span());
    PutGoodFrom(dev, active, a, c, x, b, 0);
    forall t: nat ensures GoodFrom(dev', active, x, b, t) <==>
        GoodFrom(dev, active, x, b, t) && (ImageFor(c, active, x) && a >= t ==> c.was == b)
    {
      PutGoodFrom(dev, active, a, c, x, b, t);
    }
    if t: nat :| GoodImage(dev, active, x, b, t) && t > a { BetterGuard(dev, active, x, b, t); }
  }

  /**
   One more image of committed slot x at a: every crash afterwards still restores x if
   and only if the image holds the committed bytes or lies below a durable one that does.
   */
  lemma ImageKeepsIff(w: World, a: nat, c: Cell, w': World)
    requires Sane(w) && Undoable(w) && Takes(w, Writes(a, c), w') && Applicable(c, w.active) && c.inplace in w.live
    ensures var x, b := c.inplace, w.live[c.inplace];
            Restored(w'.dev, w'.active, x, b) <==>
                c.was == b || exists t: nat :: GoodImage(w.dev, w.active, x, b, t) && t > a
  {
    hide Cell.Span, GoodImage, Layout, Crash, Put, Safe, Restored, Vacant;
    UndoableIff(w);
    TakesSane(w, Writes(a, c), w');
    WriteSafeIff(w, a, c, c.inplace);
    RestoredIff(w'.dev, w'.slots, w'.active, c.inplace, w.live[c.inplace]);
  }

  /** Of a safe slot, every right image has a safe one at or above it. */
  lemma BetterGuard(dev: Dev, active: nat, x: nat, b: Blob, t: nat)
    requires Safe(dev, active, x, b) && GoodImage(dev, active, x, b, t)
    ensures exists u: nat :: u >= t && GoodImage(dev, active, x, b, u) && GoodFrom(dev, active, x, b, u)
  {
    hide GoodImage;
    if Whole(dev, x, b) && GoodFrom(dev, active, x, b, 0) {
      assert GoodFrom(dev, active, x, b, t);
    } else {
      var u: nat :| GoodImage(dev, active, x, b, u) && GoodFrom(dev, active, x, b, u);
      assert u < t ==> GoodFrom(dev, active, x, b, t);
    }
  }

  /** Overwriting a slot keeps it safe if and only if a right image of it is durable; other slots do not notice. */
  lemma OverwriteSafeIff(w: World, s: nat, b': Blob, x: nat)
    requires Sane(w) && s in w.slots && SlotSpan(b') == w.slots[s] && x in w.live && Safe(w.dev, w.active, x, w.live[x])
    ensures Safe(Put(w.dev, s, Slot(b')), w.active, x, w.live[x]) <==>
            (x == s ==> exists t: nat :: GoodImage(w.dev, w.active, x, w.live[x], t))
  {
    hide Cell.Span, GoodImage, GoodFrom, Whole, Crash, Put;
    var dev, active, b, c := w.dev, w.active, w.live[x], Slot(b');
    assert forall t: nat, v | Could(dev, t, v) && Applicable(v, active) :: Aims(t, v, w.slots);
    PutKeeps(dev, w.slots, active, s, c, x, b);
    forall t: nat ensures GoodFrom(Put(dev, s, c), active, x, b, t) <==> GoodFrom(dev, active, x, b, t)
        { PutGoodFrom(dev, active, s, c, x, b, t); }
    if t: nat :| GoodImage(dev, active, x, b, t) { BetterGuard(dev, active, x, b, t); }
  }

  /** A barrier keeps every slot safe. */
  lemma BarrierSafe(w: World)
    requires Sane(w)
    ensures Sane(w.(dev := Flushed(w.dev))) && (AllSafe(w) ==> AllSafe(w.(dev := Flushed(w.dev))))
  {
    hide Cell.Span, Off, Distinct;
    var dev' := Flushed(w.dev);
    forall t, v | Could(dev', t, v) && !v.Junk? ensures Could(w.dev, t, v) {}
    forall x | x in w.live && Safe(w.dev, w.active, x, w.live[x]) ensures Safe(dev', w.active, x, w.live[x])
    {
      var b := w.live[x];
      forall t: nat | GoodImage(w.dev, w.active, x, b, t) ensures GoodImage(dev', w.active, x, b, t) {}
      forall t: nat | GoodFrom(w.dev, w.active, x, b, t) ensures GoodFrom(dev', w.active, x, b, t) {}
    }
  }

  /** Once the next header is active, every image is history and the new slots are the committed ones. */
  lemma PublishSafe(w: World, e: Event, w': World)
    requires e.Publishes? && Takes(w, e, w')
    ensures Sane(w') && AllSafe(w')
  {
    hide Cell.Span, Off, Distinct;
    forall t, v ensures !(Could(w'.dev, t, v) && Applicable(v, w'.active)) {}
    forall x | x in w'.live ensures Safe(w'.dev, w'.active, x, w'.live[x]) { assert Whole(w'.dev, x, w'.live[x]); }
  }

  /** What a crash leaves is safe if the device was: before, during and after rolling back. */
  lemma CrashSafe(w: World, after: Cells)
    requires Sane(w) && Crash(w.dev, after)
    ensures var w' := w.(dev := Dev(after, [], after)); Sane(w') && (AllSafe(w) ==> AllSafe(w'))
  {
    hide Cell.Span, Off, Distinct, Aims;
    var dev' := Dev(after, [], after);
    CrashTidy(w.dev, w.slots, w.active, after);
    forall t, v | Could(dev', t, v) && !v.Junk? ensures Could(w.dev, t, v) { assert after[t] == v; }
    forall x | x in w.live && Safe(w.dev, w.active, x, w.live[x]) ensures Safe(dev', w.active, x, w.live[x])
    {
      var b := w.live[x];
      forall t: nat | GoodImage(w.dev, w.active, x, b, t) ensures GoodImage(dev', w.active, x, b, t) {}
      forall t: nat | GoodFrom(w.dev, w.active, x, b, t) ensures GoodFrom(dev', w.active, x, b, t) {}
    }
  }

  lemma TakesSane(w: World, e: Event, w': World)
    requires Sane(w) && Takes(w, e, w')
    ensures Sane(w')
  {
    hide Cell.Span, Crash, Could, Put;
    match e
    case Writes(a, c) =>
      PutCoherent(w.dev, a, c);
      forall t, v ensures Could(w'.dev, t, v) <==> Could(w.dev, t, v) || (t == a && v == c)
          { CouldPut(w.dev, a, c, t, v); }
    case Barrier => BarrierSafe(w);
    case Overwrites(x, b) =>
      PutCoherent(w.dev, x, Slot(b));
      forall t, v ensures Could(w'.dev, t, v) <==> Could(w.dev, t, v) || (t == x && v == Slot(b))
          { CouldPut(w.dev, x, Slot(b), t, v); }
    case Publishes(_, _) => PublishSafe(w, e, w');
    case Crashes(after) => CrashSafe(w, after);
  }

  /** From a safe state, a step leads to a safe state exactly when it is fair. */
  lemma StepSafeIff(w: World, e: Event, w': World)
    requires Sane(w) && AllSafe(w) && Takes(w, e, w')
    ensures AllSafe(w') <==> Fair(w, e)
  {
    hide Cell.Span, Crash, Could, Put, Safe, GoodImage, Layout, Vacant, Sane;
    match e
    case Writes(a, c) => forall x | x in w.live { WriteSafeIff(w, a, c, x); }
    case Barrier => BarrierSafe(w);
    case Overwrites(s, b) => forall x | x in w.live { OverwriteSafeIff(w, s, b, x); }
    case Publishes(_, _) => PublishSafe(w, e, w');
    case Crashes(after) => CrashSafe(w, after);
  }

  ghost predicate Runs(ws: seq<World>, es: seq<Event>) {
    |ws| == |es| + 1 && Sane(ws[0]) && forall i, j | 0 <= i < |es| && j == i + 1 :: Takes(ws[i], es[i], ws[j])
  }

  lemma {:induction false} RunSane(ws: seq<World>, es: seq<Event>, n: nat)
    requires Runs(ws, es) && n < |ws|
    ensures Sane(ws[n])
  {
    hide Takes, Sane;
    if n > 0 {
      RunSane(ws, es, n - 1);
      TakesSane(ws[n - 1], es[n - 1], ws[n]);
    }
  }

  lemma {:induction false} FairSafe(ws: seq<World>, es: seq<Event>, n: nat)
    requires Runs(ws, es) && AllSafe(ws[0]) && n < |ws| && forall i | 0 <= i < n :: Fair(ws[i], es[i])
    ensures AllSafe(ws[n])
  {
    hide Takes, Sane, AllSafe, Fair;
    if n > 0 {
      FairSafe(ws, es, n - 1);
      RunSane(ws, es, n - 1);
      StepSafeIff(ws[n - 1], es[n - 1], ws[n]);
    }
  }

  /** Every committed slot of every world of the run survives every crash. */
  ghost predicate Undoable(w: World) { forall x | x in w.live :: Restored(w.dev, w.active, x, w.live[x]) }

  lemma UndoableIff(w: World)
    requires Sane(w)
    ensures Undoable(w) <==> AllSafe(w)
  {
    hide Restored, Safe, Layout, Crash, Cell.Span;
    forall x | x in w.live ensures Restored(w.dev, w.active, x, w.live[x]) <==> Safe(w.dev, w.active, x, w.live[x]) {
      RestoredIff(w.dev, w.slots, w.active, x, w.live[x]);
    }
  }

  /**
   However writes, overwrites, failures, crashes and rollbacks follow each other: no crash at any point loses a
   committed slot if and only if every step was fair.
   */
  lemma RunUndoableIff(ws: seq<World>, es: seq<Event>)
    requires Runs(ws, es) && Undoable(ws[0])
    ensures (forall n | 0 <= n < |ws| :: Undoable(ws[n])) <==> forall i | 0 <= i < |es| :: Fair(ws[i], es[i])
  {
    hide Takes, Sane, AllSafe, Fair, Undoable;
    forall n | 0 <= n < |ws| ensures Undoable(ws[n]) <==> AllSafe(ws[n]) {
      RunSane(ws, es, n);
      UndoableIff(ws[n]);
    }
    if forall i | 0 <= i < |es| :: Fair(ws[i], es[i]) {
      forall n | 0 <= n < |ws| ensures Undoable(ws[n]) { FairSafe(ws, es, n); }
    }
    if forall n | 0 <= n < |ws| :: Undoable(ws[n]) {
      forall i | 0 <= i < |es| ensures Fair(ws[i], es[i]) {
        RunSane(ws, es, i);
        assert Undoable(ws[i]) && Undoable(ws[i + 1]);
        StepSafeIff(ws[i], es[i], ws[i + 1]);
      }
    }
  }

  // ---------------------------------------------------------------- rollback as part of the run

  /** Every image that rollback will apply is durable and off everything written since. */
  ghost predicate Firm(w: World) {
    forall t | t in w.dev.now && Applicable(w.dev.now[t], w.active) ::
        Untouched(w.dev, t) && w.dev.durable[t] == w.dev.now[t]
  }

  /** Applying one image. */
  ghost function RollsOne(w: World, t: nat): World {
    if t in w.dev.now && Applicable(w.dev.now[t], w.active)
    then w.(dev := Put(w.dev, w.dev.now[t].inplace, Slot(w.dev.now[t].was))) else w
  }

  /** The worlds that rollback goes through, image by image; its writes are in flight until the barrier at its end. */
  ghost function RollWorlds(w: World, scan: seq<nat>): seq<World>
    decreases |scan|
  {
    if scan == [] then [w, w.(dev := Flushed(w.dev))]
    else if RollsOne(w, scan[0]) == w then RollWorlds(w, scan[1..])
    else [w] + RollWorlds(RollsOne(w, scan[0]), scan[1..])
  }

  ghost function RollEvents(w: World, scan: seq<nat>): seq<Event>
    decreases |scan|
  {
    if scan == [] then [Barrier]
    else if RollsOne(w, scan[0]) == w then RollEvents(w, scan[1..])
    else [Overwrites(w.dev.now[scan[0]].inplace, w.dev.now[scan[0]].was)] + RollEvents(RollsOne(w, scan[0]), scan[1..])
  }

  lemma PutGrows(dev: Dev, a: nat, c: Cell)
    ensures Put(dev, a, c) != dev
  {
    assert |Put(dev, a, c).inflight| == |dev.inflight| + 1;
  }

  /** A durable image of a safe slot means that a right one is durable. */
  lemma ImageGuards(dev: Dev, active: nat, x: nat, b: Blob, t: nat)
    requires Safe(dev, active, x, b) && Untouched(dev, t) && ImageFor(dev.durable[t], active, x)
    ensures exists u: nat :: GoodImage(dev, active, x, b, u)
  {
    if Whole(dev, x, b) && GoodFrom(dev, active, x, b, 0) {
      assert Could(dev, t, dev.durable[t]);
      assert GoodImage(dev, active, x, b, t);
    }
  }

  /** Each image applied is a fair overwrite, and what is still to be applied stays firm. */
  lemma RollStep(w: World, t: nat)
    requires Sane(w) && AllSafe(w) && Firm(w) && t in w.dev.now && Applicable(w.dev.now[t], w.active)
    ensures var w' := RollsOne(w, t); var e := Overwrites(w.dev.now[t].inplace, w.dev.now[t].was);
            && Takes(w, e, w') && Fair(w, e) && Sane(w') && AllSafe(w') && Firm(w') && w' != w
            && w'.dev.now == RollOne(w.dev.now, w.active, t)
  {
    hide Cell.Span, Crash, Safe, Off, GoodFrom, Whole;
    var w', c := RollsOne(w, t), w.dev.now[t];
    var x, e := c.inplace, Overwrites(c.inplace, c.was);
    PutGrows(w.dev, x, Slot(c.was));
    assert Could(w.dev, t, c) && Aims(t, c, w.slots);
    if x in w.live { ImageGuards(w.dev, w.active, x, w.live[x], t); }
    TakesSane(w, e, w');
    StepSafeIff(w, e, w');
    StillFirm(w, x, Slot(c.was));
  }

  lemma StillFirm(w: World, x: nat, c: Cell)
    requires Firm(w) && Layout(w.dev, w.slots, w.active) && x in w.slots && c.Slot? && c.Span() == w.slots[x]
    ensures Firm(w.(dev := Put(w.dev, x, c)))
  {
    hide Cell.Span, Distinct;
    var w' := w.(dev := Put(w.dev, x, c));
    forall t | t in w'.dev.now && Applicable(w'.dev.now[t], w.active)
      ensures Untouched(w'.dev, t) && w'.dev.durable[t] == w'.dev.now[t]
    {
      assert t in w.dev.now && w.dev.now[t] == w'.dev.now[t];
      UntouchedIn(w.dev, t);
      assert Could(w.dev, t, w.dev.now[t]) && Aims(t, w.dev.now[t], w.slots);
      StillUntouched(w.dev, x, c, t);
    }
  }

  ghost predicate AllFair(ws: seq<World>, es: seq<Event>) {
    |es| < |ws| && forall i | 0 <= i < |es| :: Fair(ws[i], es[i])
  }

  lemma RunCons(w: World, e: Event, ws: seq<World>, es: seq<Event>)
    requires Runs(ws, es) && AllFair(ws, es) && Sane(w) && Takes(w, e, ws[0]) && Fair(w, e)
    ensures Runs([w] + ws, [e] + es) && AllFair([w] + ws, [e] + es)
  {
    hide Takes, Fair, Sane;
    var vs, fs := [w] + ws, [e] + es;
    forall i, j | 0 <= i < |fs| && j == i + 1 ensures Takes(vs[i], fs[i], vs[j]) && Fair(vs[i], fs[i]) {
      if i > 0 { assert vs[i] == ws[i - 1] && fs[i] == es[i - 1] && vs[j] == ws[j - 1]; }
    }
  }

  lemma RunEnds(w: World)
    requires Sane(w)
    ensures var ws, es := RollWorlds(w, []), RollEvents(w, []);
            Runs(ws, es) && AllFair(ws, es) && ws[0] == w && ws[|es|] == w.(dev := Flushed(w.dev))
  {
    hide Sane;
  }

  /**
   Rolling back is a fair run: one overwrite per image, then a barrier, ending with the whole rollback durable.
   So a crash in the middle of it loses nothing, and the next session rolls back again.
   */
  lemma {:induction false} RollbackFair(w: World, scan: seq<nat>)
    requires Sane(w) && AllSafe(w) && Firm(w)
    ensures var ws, es := RollWorlds(w, scan), RollEvents(w, scan);
            && Runs(ws, es) && AllFair(ws, es) && ws[0] == w
            && var d := Rolled(w.dev.now, w.active, scan); ws[|es|] == w.(dev := Dev(d, [], d))
    decreases |scan|
  {
    hide Sane, AllSafe, Firm, Takes, Fair, Runs, AllFair, RollOne, Put;
    if scan == [] {
      RunEnds(w);
    } else {
      var t, w' := scan[0], RollsOne(w, scan[0]);
      if t in w.dev.now && Applicable(w.dev.now[t], w.active) {
        RollStep(w, t);
        RollbackFair(w', scan[1..]);
        RunCons(w, Overwrites(w.dev.now[t].inplace, w.dev.now[t].was), RollWorlds(w', scan[1..]),
            RollEvents(w', scan[1..]));
      } else {
        NoRoll(w.dev.now, w.active, t);
        RollbackFair(w, scan[1..]);
      }
    }
  }

  lemma NoRoll(d: Cells, active: nat, t: nat)
    requires !(t in d && Applicable(d[t], active))
    ensures RollOne(d, active, t) == d
  {}

  /**
   Crash, rollback, and a crash anywhere inside the rollback: every point of it can be undone, and its end is
   restored.
   */
  lemma RecoveryUndoable(w: World, after: Cells, scan: seq<nat>)
    requires Sane(w) && Undoable(w) && Crash(w.dev, after) && Scans(after, w.active, scan)
    ensures var w0 := w.(dev := Dev(after, [], after));
            var ws, es := RollWorlds(w0, scan), RollEvents(w0, scan);
            && Runs(ws, es) && ws[0] == w0 && (forall n | 0 <= n < |ws| :: Undoable(ws[n]))
            && forall x | x in w.live :: Whole(ws[|es|].dev, x, w.live[x])
  {
    hide Sane, AllSafe, Takes, Fair, Runs, Undoable, Rolled, RollWorlds, RollEvents, Scans, Crash, Cell.Span;
    var w0 := w.(dev := Dev(after, [], after));
    var ws, es := RollWorlds(w0, scan), RollEvents(w0, scan);
    UndoableIff(w);
    CrashSafe(w, after);
    UndoableIff(w0);
    RollbackFair(w0, scan);
    RunUndoableIff(ws, es);
    forall x | x in w.live ensures Whole(ws[|es|].dev, x, w.live[x]) { BackOf(w, after, scan, x); }
  }

  lemma BackOf(w: World, after: Cells, scan: seq<nat>, x: nat)
    requires Undoable(w) && Crash(w.dev, after) && Scans(after, w.active, scan) && x in w.live
    ensures Back(after, w.active, scan, x, w.live[x])
  {
    hide Crash, Scans, Back;
    assert Restored(w.dev, w.active, x, w.live[x]);
  }

  // ---------------------------------------------------------------- a repeat attempt that loses

  function Page(x: Byte): seq<Byte> { seq(4096, _ => x) }

  function First(): Blob { Blob(Plain, 0, 1, Page(0)) }

  function Half(): Blob { Blob(Plain, 0, 2, Page(1)) }

  function Undo1(): Cell { Image(8192, 6, 0, First()) }

  function Undo2(): Cell { Image(8192, 6, 0, Half()) }

  lemma Sizes()
    ensures SlotSpan(First()) == SlotSpan(Half()) == 4096 && First() != Half()
    ensures Undo1().Span() == Undo2().Span() == 8192
  {
    assert Page(0)[0] != Page(1)[0];
  }

  ghost function Start(): World {
    World(Dev(map[8192 := Slot(First())], [], map[8192 := Slot(First())]), map[8192 := 4096], map[8192 := First()], 5)
  }

  ghost function Saved(t1: nat): World { Start().(dev := Put(Start().dev, t1, Undo1())) }

  ghost function Durable(t1: nat): World { Saved(t1).(dev := Flushed(Saved(t1).dev)) }

  ghost function Halfway(t1: nat): World { Durable(t1).(dev := Put(Durable(t1).dev, 8192, Slot(Half()))) }

  ghost function Again(t1: nat, t2: nat): World { Halfway(t1).(dev := Put(Halfway(t1).dev, t2, Undo2())) }

  /** One committed slot overwritten in place, then imaged a second time in the same commit scope. */
  ghost function Attempt(t1: nat, t2: nat): seq<World> { [Start(), Saved(t1), Durable(t1), Halfway(t1), Again(t1, t2)] }

  ghost function AttemptSteps(t1: nat, t2: nat): seq<Event> {
    [Writes(t1, Undo1()), Barrier, Overwrites(8192, Half()), Writes(t2, Undo2())]
  }

  lemma StartSafe()
    ensures Sane(Start()) && AllSafe(Start()) && Undoable(Start())
  {
    hide Undoable;
    Sizes();
    assert Whole(Start().dev, 8192, First());
    UndoableIff(Start());
  }

  lemma AttemptWrites(t1: nat, t2: nat)
    requires t1 >= 12288 && t2 >= t1 + 8192
    ensures Takes(Start(), Writes(t1, Undo1()), Saved(t1)) && Takes(Halfway(t1), Writes(t2, Undo2()), Again(t1, t2))
  {
    Sizes();
    hide Cell.Span;
    assert Durable(t1).dev.durable == map[8192 := Slot(First()), t1 := Undo1()];
  }

  lemma AttemptRuns(t1: nat, t2: nat)
    requires t1 >= 12288 && t2 >= t1 + 8192
    ensures Runs(Attempt(t1, t2), AttemptSteps(t1, t2)) && Undoable(Start())
  {
    hide Undoable, Sane;
    Sizes();
    StartSafe();
    AttemptWrites(t1, t2);
  }

  lemma AttemptUnfair(t1: nat, t2: nat)
    requires t1 >= 12288 && t2 >= t1 + 8192
    ensures !Fair(Halfway(t1), Writes(t2, Undo2()))
  {
    Sizes();
    hide Cell.Span;
    assert Durable(t1).dev.durable == map[8192 := Slot(First()), t1 := Undo1()];
  }

  lemma SecondFit(tail: seq<Ext>, t1: nat, rest: seq<Ext>)
    requires tail == [Ext(40960, 8192), Ext(57344, 8192)] && Extents.Canonical(rest)
    requires Fits(tail, 8192) ==> FirstFit(tail, 8192, t1) && Cover(rest) == Cover(tail) - Range(t1, 8192)
    ensures t1 == 40960 && rest == [Ext(57344, 8192)]
  {
    assert tail[0].len >= 8192;
    var one := [Ext(57344, 8192)];
    forall x ensures x in Cover(rest) <==> x in Cover(one) {
      if Covers(tail, x) { var i :| 0 <= i < |tail| && tail[i].Has(x); if i == 1 { CoversAt(one, 0, x); } }
      if Covers(one, x) { CoversAt(tail, 1, x); }
    }
    CanonicalUnique(rest, one, 0);
  }

  /**
   The order matters.  First fit in a tail whose free space is in two pieces gives the
   second image of a slot the higher address, and some crash of that run then ends
   with other than the committed bytes.
   */
  method RepeatAboveLoses() returns (t1: nat, t2: nat)
    ensures FirstFit([Ext(40960, 8192), Ext(57344, 8192)], 8192, t1) && FirstFit([Ext(57344, 8192)], 8192, t2)
        && t1 < t2
    ensures Runs(Attempt(t1, t2), AttemptSteps(t1, t2)) && Undoable(Start())
    ensures exists n :: 0 <= n < 5 && !Undoable(Attempt(t1, t2)[n])
  {
    hide Undoable, Runs, Fair;
    var tail := [Ext(40960, 8192), Ext(57344, 8192)];
    var found, rest;
    found, t1, rest := Take(tail, 8192);
    SecondFit(tail, t1, rest);
    assert rest[0].len >= 8192;
    found, t2, rest := Take(rest, 8192);
    AttemptRuns(t1, t2);
    AttemptUnfair(t1, t2);
    RunUndoableIff(Attempt(t1, t2), AttemptSteps(t1, t2));
    assert !Fair(Attempt(t1, t2)[3], AttemptSteps(t1, t2)[3]);
  }
}
