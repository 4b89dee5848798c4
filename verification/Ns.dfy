/**
 The pending key-catalog mutations between commits (kernel/sfs_ns.c) and the
 snapshot/consume protocol that lets operations go on during a commit.
 */
module Ns {
  import opened Base

  type Key = seq<Byte>
  type Uuid = seq<Byte>

  datatype Item = Item(key: Key, uuid: Uuid)

  /** Strictly ascending raw key bytes, hence no duplicates. */
  ghost predicate Sorted(a: seq<Item>) { forall i, j | 0 <= i < j < |a| :: LexLess(a[i].key, a[j].key) }

  ghost predicate Has(a: seq<Item>, k: Key) { exists i :: 0 <= i < |a| && a[i].key == k }

  ghost predicate Binds(a: seq<Item>, k: Key, u: Uuid) { exists i :: 0 <= i < |a| && a[i] == Item(k, u) }

  /** Three-way comparison: common bytes first, then length. */
  method Compare(a: Key, b: Key) returns (c: int)
    ensures c < 0 <==> LexLess(a, b)
    ensures c == 0 <==> a == b
  {
    var n := if |a| < |b| then |a| else |b|;
    var i := 0;
    while i < n && a[i] == b[i]
      invariant 0 <= i <= n && a[..i] == b[..i]
    {
      assert a[..i + 1] == a[..i] + [a[i]] && b[..i + 1] == b[..i] + [b[i]];
      i := i + 1;
    }
    LexIrreflexive(a);
    if i < n {
      c := a[i] as int - b[i] as int;
      if c < 0 { LexAt(a, b, i); } else { LexAt(b, a, i); LexAsymmetric(b, a); }
    } else if |a| == |b| {
      assert a == a[..i] && b == b[..i];
      c := 0;
    } else {
      c := if |a| < |b| then -1 else 1;
      if |a| < |b| { LexAt(a, b, i); } else { LexAt(b, a, i); LexAsymmetric(b, a); }
    }
  }

  lemma LexAsymmetric(a: Key, b: Key)
    requires LexLess(a, b)
    ensures !LexLess(b, a) && a != b
  {
    LexIrreflexive(a);
    if LexLess(b, a) { LexTransitive(a, b, a); }
  }

  /** Binary search: the position of the key, or where it belongs. */
  method Find(a: seq<Item>, k: Key) returns (found: bool, pos: nat)
    requires Sorted(a)
    ensures pos <= |a| && (found <==> Has(a, k)) && (found ==> pos < |a| && a[pos].key == k)
    ensures forall i | 0 <= i < pos :: LexLess(a[i].key, k)
    ensures forall i | pos <= i < |a| && !(found && i == pos) :: LexLess(k, a[i].key)
  {
    var lo, hi := 0, |a|;
    while lo < hi
      invariant 0 <= lo <= hi <= |a|
      invariant forall i | 0 <= i < lo :: LexLess(a[i].key, k)
      invariant forall i | hi <= i < |a| :: !LexLess(a[i].key, k)
    {
      var mid := lo + (hi - lo) / 2;
      var c := Compare(a[mid].key, k);
      if c < 0 {
        forall i | 0 <= i < mid ensures LexLess(a[i].key, k) { LexTransitive(a[i].key, a[mid].key, k); }
        lo := mid + 1;
      } else {
        forall i | mid < i < |a| ensures !LexLess(a[i].key, k)
            { if LexLess(a[i].key, k) { LexTransitive(a[mid].key, a[i].key, k); } }
        hi := mid;
      }
    }
    pos, found := lo, false;
    if lo < |a| {
      var c := Compare(a[lo].key, k);
      found := c == 0;
      LexTotal(a[lo].key, k);
    }
    FindRest(a, k, pos, found);
  }

  lemma FindRest(a: seq<Item>, k: Key, pos: nat, found: bool)
    requires Sorted(a) && pos <= |a| && (found <==> pos < |a| && a[pos].key == k)
    requires (forall i | 0 <= i < pos :: LexLess(a[i].key, k)) && (pos < |a| && !found ==> LexLess(k, a[pos].key))
    ensures found <==> Has(a, k)
    ensures forall i | pos <= i < |a| && !(found && i == pos) :: LexLess(k, a[i].key)
  {
    LexIrreflexive(k);
    forall i | pos < i < |a| ensures LexLess(k, a[i].key) { if !found { LexTransitive(k, a[pos].key, a[i].key); } }
  }

  /** Puts the key in order, or overwrites the uuid of an equal one. */
  method Insert(a: seq<Item>, k: Key, u: Uuid) returns (b: seq<Item>)
    requires Sorted(a)
    ensures Sorted(b)
    ensures forall x: Key, v: Uuid :: Binds(b, x, v) <==> if x == k then v == u else Binds(a, x, v)
  {
    var found, i := Find(a, k);
    if found {
      b := a[i := Item(k, u)];
    } else {
      b := a[..i] + [Item(k, u)] + a[i..];
    }
    LexIrreflexive(k);
    InsertBinds(a, b, i, found, k, u);
  }

  lemma InsertBinds(a: seq<Item>, b: seq<Item>, i: nat, found: bool, k: Key, u: Uuid)
    requires i <= |a| && (found ==> i < |a| && a[i].key == k)
    requires (forall j | 0 <= j < |a| && !(found && j == i) :: a[j].key != k)
    requires b == if found then a[i := Item(k, u)] else a[..i] + [Item(k, u)] + a[i..]
    ensures forall x: Key, v: Uuid :: Binds(b, x, v) <==> if x == k then v == u else Binds(a, x, v)
  {
    forall x: Key, v: Uuid ensures Binds(b, x, v) <==> if x == k then v == u else Binds(a, x, v)
    {
      assert b[i] == Item(k, u);
      if Binds(b, x, v) {
        var j :| 0 <= j < |b| && b[j] == Item(x, v);
        if j != i { assert a[if found || j < i then j else j - 1] == b[j]; }
      }
      if Binds(a, x, v) && x != k {
        var j :| 0 <= j < |a| && a[j] == Item(x, v);
        assert b[if found || j < i then j else j + 1] == a[j];
      }
    }
  }

  /** Closes the gap left by one entry. */
  method Erase(a: seq<Item>, i: nat) returns (b: seq<Item>)
    requires Sorted(a) && i < |a|
    ensures Sorted(b)
    ensures forall x: Key, v: Uuid :: Binds(b, x, v) <==> x != a[i].key && Binds(a, x, v)
  {
    b := a[..i] + a[i + 1..];
    forall x: Key, v: Uuid ensures Binds(b, x, v) <==> x != a[i].key && Binds(a, x, v)
    {
      if Binds(b, x, v) {
        var j :| 0 <= j < |b| && b[j] == Item(x, v);
        var j' := if j < i then j else j + 1;
        assert a[j'] == b[j];
        LexIrreflexive(x);
      }
      if Binds(a, x, v) && x != a[i].key {
        var j :| 0 <= j < |a| && a[j] == Item(x, v);
        assert b[if j < i then j else j - 1] == a[j];
      }
    }
  }

  // ---------------------------------------------------------------- the overlay as a value

  /** What the overlay says about one key. */
  datatype Mark = Silent | Added(uuid: Uuid) | Gone

  /** The catalog, as any total lookup. */
  type Catalog = Key -> Option<Uuid>

  /** What a lookup through overlay and catalog returns. */
  function Seen(m: Mark, disk: Option<Uuid>): Option<Uuid> {
    match m case Silent => disk case Added(u) => Some(u) case Gone => None
  }

  ghost predicate MarkOf(removed: seq<Item>, added: seq<Item>, k: Key, m: Mark) {
    match m
    case Added(u) => Binds(added, k, u)
    case Gone => Has(removed, k) && !Has(added, k)
    case Silent => !Has(removed, k) && !Has(added, k)
  }

  /** Both arrays in order and no key in both. */
  ghost predicate Wf(removed: seq<Item>, added: seq<Item>) {
    Sorted(removed) && Sorted(added) && forall k :: !(Has(removed, k) && Has(added, k))
  }

  lemma HasBinds(a: seq<Item>, k: Key)
    ensures Has(a, k) <==> exists u :: Binds(a, k, u)
  {
    if Has(a, k) { var i :| 0 <= i < |a| && a[i].key == k; assert Binds(a, k, a[i].uuid); }
    if exists u :: Binds(a, k, u) {
      var u :| Binds(a, k, u);
      var i :| 0 <= i < |a| && a[i] == Item(k, u);
      assert a[i].key == k;
    }
  }

  lemma BindsOnce(a: seq<Item>, k: Key, u: Uuid, v: Uuid)
    requires Sorted(a) && Binds(a, k, u) && Binds(a, k, v)
    ensures u == v
  {
    var i :| 0 <= i < |a| && a[i] == Item(k, u);
    var j :| 0 <= j < |a| && a[j] == Item(k, v);
    LexIrreflexive(k);
  }

  class Ns {
    var removed: seq<Item>
    var added: seq<Item>

    constructor ()
      ensures Valid() && forall k :: Says(k, Silent)
    {
      removed, added := [], [];
    }

    ghost predicate Valid()
      reads this
    {
      Wf(removed, added)
    }

    ghost predicate Says(k: Key, m: Mark)
      reads this
    {
      MarkOf(removed, added, k, m)
    }

    method Lookup(k: Key) returns (m: Mark)
      requires Valid()
      ensures Says(k, m)
    {
      var found, i := Find(added, k);
      if found { assert added[i] == Item(k, added[i].uuid); return Added(added[i].uuid); }
      found, i := Find(removed, k);
      return if found then Gone else Silent;
    }

    /** Drops a pending add and records the removal, whether or not the key exists on disk. */
    method Remove(k: Key)
      requires Valid()
      modifies this
      ensures Valid() && Says(k, Gone)
      ensures forall x, m | x != k :: MarkOf(removed, added, x, m) <==> MarkOf(old(removed), old(added), x, m)
    {
      var found, i := Find(added, k);
      if found { added := Erase(added, i); }
      ghost var a1 := added;
      assert forall x, u :: Binds(a1, x, u) <==> x != k && Binds(old(added), x, u) by
          { NoBinds(old(added), a1, k, found); }
      removed := Insert(removed, k, []);
      MarksAfterRemove(old(removed), old(added), removed, added, k);
    }

    method Add(k: Key, u: Uuid)
      requires Valid()
      modifies this
      ensures Valid() && Says(k, Added(u))
      ensures forall x, m | x != k :: MarkOf(removed, added, x, m) <==> MarkOf(old(removed), old(added), x, m)
    {
      var found, i := Find(removed, k);
      if found { removed := Erase(removed, i); }
      ghost var r1 := removed;
      assert forall x, v :: Binds(r1, x, v) <==> x != k && Binds(old(removed), x, v) by
          { NoBinds(old(removed), r1, k, found); }
      added := Insert(added, k, u);
      MarksAfterAdd(old(removed), old(added), removed, added, k, u);
    }

    /** A copy of both arrays, taken under the overlay lock. */
    method Snapshot() returns (sr: seq<Item>, sa: seq<Item>)
      ensures sr == removed && sa == added
    {
      sr, sa := removed, added;
    }

    /** Erases exactly what the published snapshot covers; an add with a new uuid stays pending. */
    method Consume(sr: seq<Item>, sa: seq<Item>)
      requires Valid() && Wf(sr, sa)
      modifies this
      ensures Valid()
      ensures forall k, m, s | old(Says(k, m)) && MarkOf(sr, sa, k, s) :: Says(k, Consumed(m, s))
    {
      ghost var r, a := removed, added;
      removed := DropKeys(removed, sr);
      added := DropSame(added, sa);
      WfAfterConsume(r, a, removed, added);
      forall k, m, s | MarkOf(r, a, k, m) && MarkOf(sr, sa, k, s) ensures Says(k, Consumed(m, s))
      {
        MarksAfterConsume(r, a, sr, sa, removed, added, k, m, s);
      }
    }
  }

  datatype Op = AddOp(key: Key, uuid: Uuid) | RemoveOp(key: Key)

  /** Every key has exactly one mark. */
  lemma OneMark(r: seq<Item>, a: seq<Item>, k: Key) returns (m: Mark)
    requires Wf(r, a)
    ensures MarkOf(r, a, k, m) && forall n | MarkOf(r, a, k, n) :: n == m
  {
    HasBinds(a, k);
    if Has(a, k) {
      var u :| Binds(a, k, u);
      m := Added(u);
      forall v | Binds(a, k, v) ensures v == u { BindsOnce(a, k, u, v); }
    } else {
      m := if Has(r, k) then Gone else Silent;
    }
  }

  /** The mark of a key after a list of operations: the last one on that key decides. */
  function Later(m: Mark, ops: seq<Op>, k: Key): Mark {
    if ops == [] then m
    else
      var last := ops[|ops| - 1];
      if last.key != k then Later(m, ops[..|ops| - 1], k)
      else match last case AddOp(_, u) => Added(u) case RemoveOp(_) => Gone
  }

  /** Any operations let through while the catalog is being rebuilt from the snapshot. */
  method Interleave(ns: Ns, ops: seq<Op>, ghost sr: seq<Item>, ghost sa: seq<Item>)
    requires ns.Valid() && Follows(ns.removed, ns.added, sr, sa)
    modifies ns
    ensures ns.Valid() && Follows(ns.removed, ns.added, sr, sa)
    ensures forall k, m | MarkOf(old(ns.removed), old(ns.added), k, m) :: ns.Says(k, Later(m, ops, k))
  {
    var i := 0;
    assert ops[..0] == [];
    while i < |ops|
      invariant 0 <= i <= |ops| && ns.Valid() && Follows(ns.removed, ns.added, sr, sa)
      invariant forall k, m | MarkOf(old(ns.removed), old(ns.added), k, m) :: ns.Says(k, Later(m, ops[..i], k))
    {
      ghost var r0, a0 := ns.removed, ns.added;
      assert ops[..i + 1][..i] == ops[..i];
      match ops[i] {
        case AddOp(k, u) => ns.Add(k, u); HasBinds(ns.added, k); assert Binds(ns.added, k, u);
        case RemoveOp(k) => ns.Remove(k);
      }
      StillFollows(r0, a0, ns.removed, ns.added, sr, sa, ops[i].key);
      i := i + 1;
    }
    assert ops[..|ops|] == ops;
  }

  /** The end of a commit window: every lookup after the consume returns what it returned just before. */
  method Close(ns: Ns, sr: seq<Item>, sa: seq<Item>, ghost before: Catalog, ghost after: Catalog)
    requires ns.Valid() && Wf(sr, sa) && Follows(ns.removed, ns.added, sr, sa) && Applies(before, sr, sa, after)
    modifies ns
    ensures ns.Valid()
    ensures forall k, m, s | MarkOf(old(ns.removed), old(ns.added), k, m) && MarkOf(sr, sa, k, s) ::
        ns.Says(k, Consumed(m, s))
    ensures forall k, m, n | MarkOf(old(ns.removed), old(ns.added), k, m) && ns.Says(k, n) ::
        Seen(n, after(k)) == Seen(m, before(k))
  {
    ghost var r, a := ns.removed, ns.added;
    ns.Consume(sr, sa);
    forall k, m, n | MarkOf(r, a, k, m) && ns.Says(k, n) ensures Seen(n, after(k)) == Seen(m, before(k))
    {
      var s := OneMark(sr, sa, k);
      CommitInvisible(r, a, sr, sa, k, m, s, before, after);
      var one := OneMark(ns.removed, ns.added, k);
      assert ns.Says(k, Consumed(m, s));
    }
  }

  lemma StillFollows(r: seq<Item>, a: seq<Item>, r': seq<Item>, a': seq<Item>, sr: seq<Item>, sa: seq<Item>, k: Key)
    requires Follows(r, a, sr, sa) && (Has(r', k) || Has(a', k))
    requires forall x, m | x != k :: MarkOf(r', a', x, m) <==> MarkOf(r, a, x, m)
    ensures Follows(r', a', sr, sa)
  {
    forall x | Has(sr, x) || Has(sa, x) ensures Has(r', x) || Has(a', x)
    {
      if x != k { assert MarkOf(r', a', x, Silent) <==> MarkOf(r, a, x, Silent); }
    }
  }

  lemma NoBinds(a: seq<Item>, b: seq<Item>, k: Key, found: bool)
    requires found <==> Has(a, k)
    requires if found then forall x, u :: Binds(b, x, u) <==> x != k && Binds(a, x, u) else b == a
    ensures forall x, u :: Binds(b, x, u) <==> x != k && Binds(a, x, u)
  {
    HasBinds(a, k);
  }

  lemma MarksAfterRemove(r: seq<Item>, a: seq<Item>, r': seq<Item>, a': seq<Item>, k: Key)
    requires Wf(r, a) && Sorted(r') && Sorted(a')
    requires forall x, u :: Binds(a', x, u) <==> x != k && Binds(a, x, u)
    requires forall x, u :: Binds(r', x, u) <==> if x == k then u == [] else Binds(r, x, u)
    ensures Wf(r', a') && MarkOf(r', a', k, Gone) && forall x, m | x != k ::
        MarkOf(r', a', x, m) <==> MarkOf(r, a, x, m)
  {
    forall x ensures (Has(a', x) <==> x != k && Has(a, x)) && (Has(r', x) <==> x == k || Has(r, x))
    {
      HasBinds(a, x);
      HasBinds(a', x);
      HasBinds(r, x);
      HasBinds(r', x);
      assert Binds(r', k, []);
    }
  }

  lemma MarksAfterAdd(r: seq<Item>, a: seq<Item>, r': seq<Item>, a': seq<Item>, k: Key, u: Uuid)
    requires Wf(r, a) && Sorted(r') && Sorted(a')
    requires forall x, v :: Binds(r', x, v) <==> x != k && Binds(r, x, v)
    requires forall x, v :: Binds(a', x, v) <==> if x == k then v == u else Binds(a, x, v)
    ensures Wf(r', a') && MarkOf(r', a', k, Added(u)) && forall x, m | x != k ::
        MarkOf(r', a', x, m) <==> MarkOf(r, a, x, m)
  {
    forall x ensures (Has(r', x) <==> x != k && Has(r, x)) && (Has(a', x) <==> x == k || Has(a, x))
    {
      HasBinds(a, x);
      HasBinds(a', x);
      HasBinds(r, x);
      HasBinds(r', x);
      assert Binds(a', k, u);
    }
  }

  // ---------------------------------------------------------------- snapshot and consume

  /** Erases the entries of `a` whose key the snapshot's removal list has. */
  method DropKeys(a: seq<Item>, snap: seq<Item>) returns (b: seq<Item>)
    requires Sorted(a)
    ensures Sorted(b) && forall x, u :: Binds(b, x, u) <==> Binds(a, x, u) && !Has(snap, x)
  {
    b := a;
    for i := 0 to |snap|
      invariant Sorted(b)
      invariant forall x, u :: Binds(b, x, u) <==> Binds(a, x, u) && !Has(snap[..i], x)
    {
      ghost var was := b;
      var found, pos := Find(b, snap[i].key);
      if found { b := Erase(b, pos); }
      forall x, u ensures Binds(b, x, u) <==> Binds(a, x, u) && !Has(snap[..i + 1], x)
      {
        HasMore(snap, i, x);
        HasBinds(was, x);
      }
    }
    assert snap[..|snap|] == snap;
  }

  lemma HasMore(snap: seq<Item>, i: nat, x: Key)
    requires i < |snap|
    ensures Has(snap[..i + 1], x) <==> Has(snap[..i], x) || snap[i].key == x
  {
    if Has(snap[..i], x) { var j :| 0 <= j < i && snap[..i][j].key == x; assert snap[..i + 1][j].key == x; }
    assert snap[..i + 1][i] == snap[i];
  }

  /** Erases the entries that still carry the uuid the snapshot had. */
  method DropSame(a: seq<Item>, snap: seq<Item>) returns (b: seq<Item>)
    requires Sorted(a)
    ensures Sorted(b) && forall x, u :: Binds(b, x, u) <==> Binds(a, x, u) && !Binds(snap, x, u)
  {
    b := a;
    for i := 0 to |snap|
      invariant Sorted(b)
      invariant forall x, u :: Binds(b, x, u) <==> Binds(a, x, u) && !Binds(snap[..i], x, u)
    {
      ghost var was := b;
      var found, pos := Find(b, snap[i].key);
      var hit := found && b[pos].uuid == snap[i].uuid;
      if hit { b := Erase(b, pos); }
      forall x, u ensures Binds(b, x, u) <==> Binds(a, x, u) && !Binds(snap[..i + 1], x, u)
      {
        BindsMore(snap, i, x, u);
        if x == snap[i].key && Binds(was, x, u) {
          HasBinds(was, x);
          assert was[pos] == Item(x, was[pos].uuid);
          BindsOnce(was, x, u, was[pos].uuid);
        }
      }
    }
    assert snap[..|snap|] == snap;
  }

  lemma BindsMore(snap: seq<Item>, i: nat, x: Key, u: Uuid)
    requires i < |snap|
    ensures Binds(snap[..i + 1], x, u) <==> Binds(snap[..i], x, u) || snap[i] == Item(x, u)
  {
    if Binds(snap[..i], x, u) { var j :| 0 <= j < i && snap[..i][j] == Item(x, u);
        assert snap[..i + 1][j] == Item(x, u); }
    assert snap[..i + 1][i] == snap[i];
  }

  /** What consuming the snapshot's mark s does to the live mark m. */
  function Consumed(m: Mark, s: Mark): Mark {
    if (m.Gone? && s.Gone?) || (m.Added? && m == s) then Silent else m
  }

  lemma MarksAfterConsume(r: seq<Item>, a: seq<Item>, sr: seq<Item>, sa: seq<Item>, r': seq<Item>, a': seq<Item>,
      k: Key, m: Mark, s: Mark)
    requires Wf(r, a) && Wf(sr, sa) && Sorted(r') && Sorted(a') && MarkOf(r, a, k, m) && MarkOf(sr, sa, k, s)
    requires forall x, u :: Binds(r', x, u) <==> Binds(r, x, u) && !Has(sr, x)
    requires forall x, u :: Binds(a', x, u) <==> Binds(a, x, u) && !Binds(sa, x, u)
    ensures MarkOf(r', a', k, Consumed(m, s))
  {
    HasBinds(r, k);
    HasBinds(r', k);
    HasBinds(a, k);
    HasBinds(a', k);
    HasBinds(sa, k);
    if m.Added? {
      forall u | Binds(a, k, u) ensures u == m.uuid { BindsOnce(a, k, u, m.uuid); }
      if s.Added? { forall u | Binds(sa, k, u) ensures u == s.uuid { BindsOnce(sa, k, u, s.uuid); } }
    }
  }

  lemma WfAfterConsume(r: seq<Item>, a: seq<Item>, r': seq<Item>, a': seq<Item>)
    requires Wf(r, a) && Sorted(r') && Sorted(a')
    requires forall x, u | Binds(r', x, u) :: Binds(r, x, u)
    requires forall x, u | Binds(a', x, u) :: Binds(a, x, u)
    ensures Wf(r', a')
  {
    forall k ensures !(Has(r', k) && Has(a', k))
    {
      HasBinds(r, k);
      HasBinds(r', k);
      HasBinds(a, k);
      HasBinds(a', k);
    }
  }

  /** A live overlay keeps speaking about every key the snapshot spoke about. */
  ghost predicate Follows(removed: seq<Item>, added: seq<Item>, sr: seq<Item>, sa: seq<Item>) {
    forall k | Has(sr, k) || Has(sa, k) :: Has(removed, k) || Has(added, k)
  }

  /** The catalog once the snapshot's removals and additions have been applied to it. */
  ghost predicate Applies(before: Catalog, sr: seq<Item>, sa: seq<Item>, after: Catalog) {
    forall k, s | MarkOf(sr, sa, k, s) :: after(k) == Seen(s, before(k))
  }

  /**
   Publishing the snapshot and consuming it changes no lookup: whatever was added or removed meanwhile is still
   seen.
   */
  lemma CommitInvisible(r: seq<Item>, a: seq<Item>, sr: seq<Item>, sa: seq<Item>, k: Key, m: Mark, s: Mark,
      before: Catalog, after: Catalog)
    requires Wf(r, a) && Wf(sr, sa) && Follows(r, a, sr, sa) && Applies(before, sr, sa, after)
    requires MarkOf(r, a, k, m) && MarkOf(sr, sa, k, s)
    ensures Seen(Consumed(m, s), after(k)) == Seen(m, before(k))
  {
    HasBinds(sa, k);
    HasBinds(a, k);
  }
}
