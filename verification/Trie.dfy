/**
 The catalog trie as a value: what the on-disk nodes mean, and what put and
 remove do to that meaning.  Addresses do not occur here; CatCow.dfy proves that
 the block-level code computes exactly these functions.
 */
module Trie {
  import opened Base

  type Key = seq<Byte>
  type Val = seq<Byte>

  /** An internal node has at most one child per byte and may end a key itself. */
  datatype Trie =
    | Leaf(key: Key, val: Val)
    | Inner(term: Option<Val>, kids: map<Byte, Trie>)

  const EmptyRoot := Inner(None, map[])

  /** A leaf stores its full key, which must extend the byte path leading to it. */
  predicate Wf(t: Trie, path: Key) {
    match t
    case Leaf(k, _) => path <= k
    case Inner(_, kids) => forall b | b in kids :: Wf(kids[b], path + [b])
  }

  /** The reader's descent, one key byte per level. */
  function Lookup(t: Trie, key: Key, d: nat): Option<Val>
    requires d <= |key|
  {
    match t
    case Leaf(k, v) => if k == key then Some(v) else None
    case Inner(term, kids) =>
      if d == |key| then term
      else if key[d] in kids then Lookup(kids[key[d]], key, d + 1)
      else None
  }

  // A root address of zero is an empty catalog.
  predicate WfRoot(r: Option<Trie>) { r.Some? ==> Wf(r.value, []) }

  function LookupRoot(r: Option<Trie>, key: Key): Option<Val> {
    if r.Some? then Lookup(r.value, key, 0) else None
  }

  // ---------------------------------------------------------------- put

  /** Splits an existing leaf against a new key; bytes below d already agree. */
  function Branch(ok: Key, ov: Val, nk: Key, nv: Val, d: nat): Trie
    requires d <= |ok| && d <= |nk| && ok[..d] == nk[..d] && ok != nk
    decreases |nk| - d
  {
    if d == |ok| then Inner(Some(ov), map[nk[d] := Leaf(nk, nv)])
    else if d == |nk| then Inner(Some(nv), map[ok[d] := Leaf(ok, ov)])
    else if ok[d] != nk[d] then Inner(None, map[ok[d] := Leaf(ok, ov), nk[d] := Leaf(nk, nv)])
    else
      assert ok[..d + 1] == ok[..d] + [ok[d]] && nk[..d + 1] == nk[..d] + [nk[d]];
      Inner(None, map[nk[d] := Branch(ok, ov, nk, nv, d + 1)])
  }

  function Put(t: Trie, d: nat, key: Key, val: Val): Trie
    requires d <= |key| && Wf(t, key[..d])
  {
    match t
    case Leaf(k, v) => if k == key then Leaf(key, val) else Branch(k, v, key, val, d)
    case Inner(term, kids) =>
      if d == |key| then Inner(Some(val), kids)
      else if key[d] !in kids then Inner(term, kids[key[d] := Leaf(key, val)])
      else
        assert key[..d + 1] == key[..d] + [key[d]];
        Inner(term, kids[key[d] := Put(kids[key[d]], d + 1, key, val)])
  }

  function PutRoot(r: Option<Trie>, key: Key, val: Val): Trie
    requires WfRoot(r)
  {
    Put(if r.Some? then r.value else EmptyRoot, 0, key, val)
  }

  // ---------------------------------------------------------------- remove

  datatype Removal = Absent | Pruned | Replaced(t: Trie)

  /** Prune an empty node, pull a lone leaf up, otherwise keep the node. */
  function Rebuild(term: Option<Val>, kids: map<Byte, Trie>): Removal {
    if term.None? && kids == map[] then Pruned
    else if term.None? && exists i | i in kids :: kids.Keys == {i} && kids[i].Leaf? then
      var i :| i in kids && kids.Keys == {i} && kids[i].Leaf?;
      Replaced(kids[i])
    else Replaced(Inner(term, kids))
  }

  function Remove(t: Trie, d: nat, key: Key): Removal
    requires d <= |key|
  {
    match t
    case Leaf(k, _) => if k == key then Pruned else Absent
    case Inner(term, kids) =>
      if d == |key| then
        if term.None? then Absent else Rebuild(None, kids)
      else if key[d] !in kids then Absent
      else
        match Remove(kids[key[d]], d + 1, key)
        case Absent => Absent
        case Pruned => Rebuild(term, kids - {key[d]})
        case Replaced(c) => Replaced(Inner(term, kids[key[d] := c]))
  }

  /** A root pruned to nothing becomes a fresh empty internal node. */
  function RemoveRoot(r: Option<Trie>, key: Key): Option<Trie> {
    if r.None? then None
    else
      match Remove(r.value, 0, key)
      case Absent => r
      case Pruned => Some(EmptyRoot)
      case Replaced(c) => Some(c)
  }

  // ---------------------------------------------------------------- put is map update

  lemma {:induction false} BranchLookup(ok: Key, ov: Val, nk: Key, nv: Val, d: nat, k: Key)
    requires d <= |ok| && d <= |nk| && ok[..d] == nk[..d] && ok != nk
    requires d <= |k| && k[..d] == nk[..d]
    ensures Wf(Branch(ok, ov, nk, nv, d), nk[..d])
    ensures Lookup(Branch(ok, ov, nk, nv, d), k, d) ==
            if k == nk then Some(nv) else if k == ok then Some(ov) else None
    decreases |nk| - d
  {
    if d < |ok| && d < |nk| && ok[d] == nk[d] {
      assert ok[..d + 1] == ok[..d] + [ok[d]] && nk[..d + 1] == nk[..d] + [nk[d]];
      BranchLookup(ok, ov, nk, nv, d + 1, nk);
      if d < |k| && k[d] == nk[d] {
        assert k[..d + 1] == k[..d] + [k[d]];
        BranchLookup(ok, ov, nk, nv, d + 1, k);
      }
    } else {
      if d < |nk| { assert nk[..d] + [nk[d]] == nk[..d + 1] <= nk; }
      if d < |ok| { assert nk[..d] + [ok[d]] == ok[..d + 1] <= ok; }
    }
  }

  lemma {:induction false} PutLookup(t: Trie, d: nat, key: Key, val: Val, k: Key)
    requires d <= |key| && Wf(t, key[..d])
    requires d <= |k| && k[..d] == key[..d]
    ensures Wf(Put(t, d, key, val), key[..d])
    ensures Lookup(Put(t, d, key, val), k, d) == if k == key then Some(val) else Lookup(t, k, d)
  {
    match t
    case Leaf(ok, ov) => if ok != key { BranchLookup(ok, ov, key, val, d, k); }
    case Inner(term, kids) =>
      if d < |key| {
        assert key[..d + 1] == key[..d] + [key[d]];
        if key[d] in kids {
          PutLookup(kids[key[d]], d + 1, key, val, key);
          if d < |k| && k[d] == key[d] {
            assert k[..d + 1] == k[..d] + [k[d]];
            PutLookup(kids[key[d]], d + 1, key, val, k);
          }
        }
      }
  }

  /** Put at the root is map update, for every key. */
  lemma PutIsMapUpdate(r: Option<Trie>, key: Key, val: Val, k: Key)
    requires WfRoot(r)
    ensures Wf(PutRoot(r, key, val), [])
    ensures Lookup(PutRoot(r, key, val), k, 0) == if k == key then Some(val) else LookupRoot(r, k)
  {
    PutLookup(if r.Some? then r.value else EmptyRoot, 0, key, val, k);
  }

  // ---------------------------------------------------------------- remove is map delete

  lemma RebuildLookup(term: Option<Val>, kids: map<Byte, Trie>, path: Key, k: Key)
    requires Wf(Inner(term, kids), path) && path <= k
    ensures var r := Rebuild(term, kids);
            match r
            case Absent => false
            case Pruned => Lookup(Inner(term, kids), k, |path|).None?
            case Replaced(c) => Wf(c, path) && Lookup(c, k, |path|) == Lookup(Inner(term, kids), k, |path|)
  {
    if term.None? && exists i | i in kids :: kids.Keys == {i} && kids[i].Leaf? {
      var i :| i in kids && kids.Keys == {i} && kids[i].Leaf?;
      assert path + [i] <= kids[i].key;
      if |path| < |k| && kids[i].key == k { assert k[|path|] == (path + [i])[|path|] == i; }
    }
  }

  lemma {:induction false} RemoveLookup(t: Trie, d: nat, key: Key, k: Key)
    requires d <= |key| && Wf(t, key[..d])
    requires d <= |k| && k[..d] == key[..d]
    ensures Remove(t, d, key).Absent? <==> Lookup(t, key, d).None?
    ensures match Remove(t, d, key)
            case Absent => true
            case Pruned => k == key || Lookup(t, k, d).None?
            case Replaced(c) => Wf(c, key[..d]) && Lookup(c, k, d) == if k == key then None else Lookup(t, k, d)
  {
    match t
    case Leaf(ok, ov) =>
    case Inner(term, kids) =>
      var path := key[..d];
      if d == |key| {
        RebuildLookup(None, kids, path, k);
      } else if key[d] in kids {
        var b := key[d];
        assert key[..d + 1] == path + [b];
        RemoveLookup(kids[b], d + 1, key, key);
        if d < |k| && k[d] == b {
          assert k[..d + 1] == k[..d] + [k[d]];
          RemoveLookup(kids[b], d + 1, key, k);
        }
        if Remove(kids[b], d + 1, key).Pruned? { RebuildLookup(term, kids - {b}, path, k); }
      }
  }

  /** Remove at the root is map delete for every key, and absence is reported exactly. */
  lemma RemoveIsMapDelete(r: Option<Trie>, key: Key, k: Key)
    requires WfRoot(r)
    ensures WfRoot(RemoveRoot(r, key))
    ensures LookupRoot(RemoveRoot(r, key), k) == if k == key then None else LookupRoot(r, k)
    ensures LookupRoot(r, key).None? ==> RemoveRoot(r, key) == r
  {
    if r.Some? { RemoveLookup(r.value, 0, key, k); }
  }

  // ---------------------------------------------------------------- history independence

  ghost predicate Has(t: Trie, path: Key, k: Key) { path <= k && Lookup(t, k, |path|).Some? }

  ghost predicate TwoKeys(t: Trie, path: Key) {
    exists k1, k2 :: k1 != k2 && Has(t, path, k1) && Has(t, path, k2)
  }

  /** Below the root, a node is internal exactly when at least two keys pass through it. */
  ghost predicate Canonical(t: Trie, path: Key)
    decreases t, 1
  {
    t.Inner? ==> TwoKeys(t, path) && KidsCanonical(t, path)
  }

  ghost predicate KidsCanonical(t: Trie, path: Key)
    decreases t, 0
  {
    t.Inner? && forall b | b in t.kids :: Canonical(t.kids[b], path + [b])
  }

  /** The root itself is always internal. */
  ghost predicate CanonicalRoot(r: Option<Trie>) {
    r.Some? ==> KidsCanonical(r.value, []) && exists k :: Has(r.value, [], k)
  }

  lemma {:induction false} BranchCanonical(ok: Key, ov: Val, nk: Key, nv: Val, d: nat)
    requires d <= |ok| && d <= |nk| && ok[..d] == nk[..d] && ok != nk
    ensures Canonical(Branch(ok, ov, nk, nv, d), nk[..d])
    decreases |nk| - d
  {
    var t := Branch(ok, ov, nk, nv, d);
    BranchLookup(ok, ov, nk, nv, d, ok);
    BranchLookup(ok, ov, nk, nv, d, nk);
    assert Has(t, nk[..d], ok) && Has(t, nk[..d], nk);
    if d < |ok| && d < |nk| && ok[d] == nk[d] {
      assert ok[..d + 1] == ok[..d] + [ok[d]] && nk[..d + 1] == nk[..d] + [nk[d]];
      BranchCanonical(ok, ov, nk, nv, d + 1);
    }
  }

  lemma {:induction false} PutKeepsKeys(t: Trie, d: nat, key: Key, val: Val)
    requires d <= |key| && Wf(t, key[..d]) && TwoKeys(t, key[..d])
    ensures TwoKeys(Put(t, d, key, val), key[..d])
  {
    var path := key[..d];
    var k1, k2 :| k1 != k2 && Has(t, path, k1) && Has(t, path, k2);
    PutLookup(t, d, key, val, k1);
    PutLookup(t, d, key, val, k2);
    assert Has(Put(t, d, key, val), path, k1) && Has(Put(t, d, key, val), path, k2);
  }

  lemma {:induction false} PutCanonical(t: Trie, d: nat, key: Key, val: Val)
    requires d <= |key| && Wf(t, key[..d]) && Canonical(t, key[..d])
    ensures Canonical(Put(t, d, key, val), key[..d])
    decreases t, 1
  {
    if t.Inner? {
      PutKeepsKeys(t, d, key, val);
      PutKidsCanonical(t, d, key, val);
    } else if t.key != key {
      BranchCanonical(t.key, t.val, key, val, d);
    }
  }

  lemma {:induction false} PutKidsCanonical(t: Trie, d: nat, key: Key, val: Val)
    requires d <= |key| && Wf(t, key[..d]) && KidsCanonical(t, key[..d])
    ensures KidsCanonical(Put(t, d, key, val), key[..d])
    decreases t, 0
  {
    if d < |key| && key[d] in t.kids {
      assert key[..d + 1] == key[..d] + [key[d]];
      PutCanonical(t.kids[key[d]], d + 1, key, val);
    }
  }

  lemma PutRootCanonical(r: Option<Trie>, key: Key, val: Val)
    requires WfRoot(r) && CanonicalRoot(r)
    ensures CanonicalRoot(Some(PutRoot(r, key, val)))
  {
    PutIsMapUpdate(r, key, val, key);
    assert Has(PutRoot(r, key, val), [], key);
    assert key[..0] == [];
    PutKidsCanonical(if r.Some? then r.value else EmptyRoot, 0, key, val);
  }

  /** Two subtries at the same path that answer every key under it alike. */
  ghost predicate SameMap(t: Trie, u: Trie, path: Key) {
    forall k | path <= k :: Lookup(t, k, |path|) == Lookup(u, k, |path|)
  }

  lemma KidLookup(t: Trie, path: Key, b: Byte, k: Key)
    requires t.Inner? && path + [b] <= k
    ensures path <= k
    ensures Lookup(t, k, |path|) == if b in t.kids then Lookup(t.kids[b], k, |path| + 1) else None
  {
    assert path == (path + [b])[..|path|] == k[..|path|];
    assert k[|path|] == (path + [b])[|path|];
  }

  lemma {:induction false} CanonicalHasKey(t: Trie, path: Key) returns (k: Key)
    requires Wf(t, path) && Canonical(t, path)
    ensures Has(t, path, k)
  {
    if t.Leaf? { k := t.key; } else { k :| Has(t, path, k); }
  }

  /** A canonical trie is determined by the map it denotes. */
  lemma {:induction false} CanonicalUnique(t: Trie, u: Trie, path: Key)
    requires Wf(t, path) && Wf(u, path) && Canonical(t, path) && Canonical(u, path)
    requires SameMap(t, u, path)
    ensures t == u
    decreases t, 1
  {
    if t.Inner? && u.Inner? {
      KidsUnique(t, u, path);
    } else {
      var leaf, other := if t.Leaf? then t else u, if t.Leaf? then u else t;
      assert Lookup(leaf, leaf.key, |path|) == Lookup(other, leaf.key, |path|);
    }
  }

  lemma {:induction false} KidsUnique(t: Trie, u: Trie, path: Key)
    requires Wf(t, path) && Wf(u, path) && KidsCanonical(t, path) && KidsCanonical(u, path)
    requires SameMap(t, u, path)
    ensures t == u
    decreases t, 0, 1
  {
    assert Lookup(t, path, |path|) == Lookup(u, path, |path|);
    forall b: Byte
      ensures b in t.kids <==> b in u.kids
      ensures b in t.kids && b in u.kids ==> t.kids[b] == u.kids[b]
    {
      KidUnique(t, u, path, b);
    }
    assert t.kids == u.kids;
  }

  lemma {:induction false} KidUnique(t: Trie, u: Trie, path: Key, b: Byte)
    requires Wf(t, path) && Wf(u, path) && KidsCanonical(t, path) && KidsCanonical(u, path)
    requires SameMap(t, u, path)
    ensures b in t.kids <==> b in u.kids
    ensures b in t.kids && b in u.kids ==> t.kids[b] == u.kids[b]
    decreases t, 0, 0
  {
    if b in t.kids && b in u.kids {
      var x, y, p := t.kids[b], u.kids[b], path + [b];
      forall k | p <= k
        ensures Lookup(x, k, |p|) == Lookup(y, k, |p|)
      {
        KidLookup(t, path, b, k);
        KidLookup(u, path, b, k);
      }
      CanonicalUnique(x, y, p);
    } else if b in t.kids {
      var k := CanonicalHasKey(t.kids[b], path + [b]);
      KidLookup(t, path, b, k);
      KidLookup(u, path, b, k);
    } else if b in u.kids {
      var k := CanonicalHasKey(u.kids[b], path + [b]);
      KidLookup(t, path, b, k);
      KidLookup(u, path, b, k);
    }
  }

  // A put-only history and the map it denotes.
  ghost function PutAll(ops: seq<(Key, Val)>): (r: Option<Trie>)
    ensures WfRoot(r)
  {
    if ops == [] then None
    else
      var r := PutAll(ops[..|ops| - 1]);
      var op := ops[|ops| - 1];
      PutIsMapUpdate(r, op.0, op.1, []);
      Some(PutRoot(r, op.0, op.1))
  }

  function MapOf(ops: seq<(Key, Val)>): map<Key, Val> {
    if ops == [] then map[] else MapOf(ops[..|ops| - 1])[ops[|ops| - 1].0 := ops[|ops| - 1].1]
  }

  lemma {:induction false} PutAllLookup(ops: seq<(Key, Val)>, k: Key)
    ensures LookupRoot(PutAll(ops), k) == if k in MapOf(ops) then Some(MapOf(ops)[k]) else None
    ensures CanonicalRoot(PutAll(ops)) && (PutAll(ops).None? <==> MapOf(ops) == map[])
  {
    if ops != [] {
      var pre, op := ops[..|ops| - 1], ops[|ops| - 1];
      PutAllLookup(pre, k);
      PutIsMapUpdate(PutAll(pre), op.0, op.1, k);
      PutRootCanonical(PutAll(pre), op.0, op.1);
      assert op.0 in MapOf(ops);
    }
  }

  /** For put-only histories the tree is a function of the final map alone. */
  lemma HistoryIndependence(ops: seq<(Key, Val)>, ops': seq<(Key, Val)>)
    requires MapOf(ops) == MapOf(ops')
    ensures PutAll(ops) == PutAll(ops')
  {
    forall k ensures LookupRoot(PutAll(ops), k) == LookupRoot(PutAll(ops'), k)
    {
      PutAllLookup(ops, k);
      PutAllLookup(ops', k);
    }
    PutAllLookup(ops, []);
    PutAllLookup(ops', []);
    var r, r' := PutAll(ops), PutAll(ops');
    if r.Some? && r'.Some? {
      forall k ensures Lookup(r.value, k, 0) == Lookup(r'.value, k, 0)
      {
        assert LookupRoot(r, k) == LookupRoot(r', k);
      }
      KidsUnique(r.value, r'.value, []);
    }
  }

  /** The node reached by following the bytes of p from depth d on. */
  function NodeAt(t: Trie, p: Key, d: nat): Option<Trie>
    requires d <= |p|
  {
    if d == |p| then Some(t)
    else if t.Inner? && p[d] in t.kids then NodeAt(t.kids[p[d]], p, d + 1)
    else None
  }

  predicate InnerAt(t: Trie, p: Key, d: nat)
    requires d <= |p|
  {
    NodeAt(t, p, d).Some? && NodeAt(t, p, d).value.Inner?
  }

  /** Two different keys under p are answered by t. */
  ghost predicate TwoKeysUnder(t: Trie, p: Key, d: nat)
    requires d <= |p|
  {
    exists k, k' :: k != k' && Under(t, p, d, k) && Under(t, p, d, k')
  }

  ghost predicate Under(t: Trie, p: Key, d: nat, k: Key)
    requires d <= |p|
  {
    p <= k && Lookup(t, k, d).Some?
  }

  lemma {:induction false} UnderKid(t: Trie, p: Key, d: nat)
    requires d < |p| && t.Inner?
    ensures TwoKeysUnder(t, p, d) <==> p[d] in t.kids && TwoKeysUnder(t.kids[p[d]], p, d + 1)
  {
    if p[d] in t.kids {
      var c, e := t.kids[p[d]], d + 1;
      forall k ensures Under(t, p, d, k) == Under(c, p, e, k)
      {
        if p <= k { assert k[d] == p[d]; }
      }
      assert TwoKeysUnder(t, p, d) == TwoKeysUnder(c, p, e);
    } else {
      forall k ensures !Under(t, p, d, k)
      {
        if p <= k { assert k[d] == p[d]; }
      }
    }
  }

  lemma {:induction false} InternalNodes(t: Trie, p: Key, d: nat)
    requires d <= |p| && Wf(t, p[..d]) && Canonical(t, p[..d])
    ensures InnerAt(t, p, d) <==> TwoKeysUnder(t, p, d)
    decreases |p| - d
  {
    if t.Inner? {
      if d < |p| {
        assert p[..d + 1] == p[..d] + [p[d]];
        UnderKid(t, p, d);
        if p[d] in t.kids { InternalNodes(t.kids[p[d]], p, d + 1); }
      } else {
        assert p[..d] == p;
        var k, k' :| k != k' && Has(t, p, k) && Has(t, p, k');
        assert Under(t, p, d, k) && Under(t, p, d, k');
      }
    }
  }

  /** In a put-only catalog the node at p is internal iff p is the root or two keys extend p. */
  lemma PutOnlyShape(ops: seq<(Key, Val)>, p: Key)
    requires ops != []
    ensures InnerAt(PutAll(ops).value, p, 0) <==>
            p == [] || exists k, k' :: k != k' && k in MapOf(ops) && k' in MapOf(ops) && p <= k && p <= k'
  {
    var t := PutAll(ops).value;
    PutAllLookup(ops, []);
    forall k ensures Under(t, p, 0, k) <==> k in MapOf(ops) && p <= k { PutAllLookup(ops, k); }
    if p != [] {
      UnderKid(t, p, 0);
      if p[0] in t.kids {
        assert p[..1] == [] + [p[0]];
        InternalNodes(t.kids[p[0]], p, 1);
      }
    }
  }

  // ---------------------------------------------------------------- the shape a removal leaves

  /** A chain that ends in the key and holds nothing else. */
  ghost predicate Sole(t: Trie, d: nat, key: Key)
    requires d <= |key|
  {
    match t
    case Leaf(k, _) => k == key
    case Inner(term, kids) =>
      if d == |key| then term.Some? && kids == map[]
      else term.None? && kids.Keys == {key[d]} && Sole(kids[key[d]], d + 1, key)
  }

  /** The node at depth j of the key's path is internal and holds the key, itself or alone below one child. */
  ghost predicate Joint(t: Trie, d: nat, key: Key, j: nat)
    requires d <= j <= |key|
    decreases j - d
  {
    && t.Inner?
    && if d < j then key[d] in t.kids && Joint(t.kids[key[d]], d + 1, key, j)
       else if d == |key| then t.term.Some?
       else key[d] in t.kids && Sole(t.kids[key[d]], d + 1, key)
  }

  /** What that node holds beside the key. */
  ghost function Rest(t: Trie, d: nat, key: Key, j: nat): (r: Trie)
    requires d <= j <= |key| && Joint(t, d, key, j)
    ensures r.Inner?
    decreases j - d
  {
    if d < j then Rest(t.kids[key[d]], d + 1, key, j)
    else if d == |key| then Inner(None, t.kids)
    else Inner(t.term, t.kids - {key[d]})
  }

  /** The tree with x in place of the node at depth j of the key's path, and nothing else changed. */
  ghost function Swap(t: Trie, d: nat, key: Key, j: nat, x: Trie): Trie
    requires d <= j <= |key| && Joint(t, d, key, j)
    decreases j - d
  {
    if d < j then Inner(t.term, t.kids[key[d] := Swap(t.kids[key[d]], d + 1, key, j, x)]) else x
  }

  lemma LastKid(kids: map<Byte, Trie>, b: Byte)
    requires b in kids
    ensures kids - {b} == map[] <==> kids.Keys == {b}
  {
    assert (kids - {b}).Keys == kids.Keys - {b};
    assert kids - {b} == map[] <==> (kids - {b}).Keys == {};
  }

  /** A subtree is pruned if and only if the removed key is all it holds. */
  lemma {:induction false} PrunedIff(t: Trie, d: nat, key: Key)
    requires d <= |key|
    ensures Remove(t, d, key).Pruned? <==> Sole(t, d, key)
  {
    if t.Inner? && d < |key| && key[d] in t.kids {
      PrunedIff(t.kids[key[d]], d + 1, key);
      LastKid(t.kids, key[d]);
    }
  }

  /**
   Removal changes one node of the path, the lowest that holds more than the key: it
   keeps its value and its other children, or, left with one leaf and no value, it is
   that leaf.
   */
  lemma {:induction false} RemovalShape(t: Trie, d: nat, key: Key, j: nat)
    requires d <= j <= |key| && Joint(t, d, key, j) && Rest(t, d, key, j) != Inner(None, map[])
    ensures forall i, k, v | Rest(t, d, key, j) == Inner(None, map[i := Leaf(k, v)]) ::
              Remove(t, d, key) == Replaced(Swap(t, d, key, j, Leaf(k, v)))
    ensures (forall i, k, v :: Rest(t, d, key, j) != Inner(None, map[i := Leaf(k, v)])) ==>
              Remove(t, d, key) == Replaced(Swap(t, d, key, j, Rest(t, d, key, j)))
    decreases j - d
  {
    if d < j {
      RemovalShape(t.kids[key[d]], d + 1, key, j);
    } else {
      var r := Rest(t, d, key, j);
      if d < |key| { PrunedIff(t.kids[key[d]], d + 1, key); }
      RebuildIs(r.term, r.kids);
    }
  }

  lemma RebuildIs(term: Option<Val>, kids: map<Byte, Trie>)
    requires term.Some? || kids != map[]
    ensures forall i, k, v | term.None? && kids == map[i := Leaf(k, v)] :: Rebuild(term, kids) == Replaced(Leaf(k, v))
    ensures (forall i, k, v :: term.None? ==> kids != map[i := Leaf(k, v)]) ==>
              Rebuild(term, kids) == Replaced(Inner(term, kids))
  {
    if term.None? && exists i | i in kids :: kids.Keys == {i} && kids[i].Leaf? {
      var i :| i in kids && kids.Keys == {i} && kids[i].Leaf?;
      assert kids == map[i := Leaf(kids[i].key, kids[i].val)];
    }
    forall i, k, v | term.None? && kids == map[i := Leaf(k, v)] ensures Rebuild(term, kids) == Replaced(Leaf(k, v)) {
      assert i in kids && kids.Keys == {i} && kids[i].Leaf?;
    }
  }

  /** A root that held nothing but the key is left as an empty internal node. */
  lemma RootShape(t: Trie, key: Key)
    ensures Sole(t, 0, key) ==> RemoveRoot(Some(t), key) == Some(Inner(None, map[]))
    ensures forall c | Remove(t, 0, key) == Replaced(c) :: RemoveRoot(Some(t), key) == Some(c)
  {
    PrunedIff(t, 0, key);
  }

  /** Every key the tree holds is all it holds, or has such a node on its path. */
  lemma {:induction false} JointOf(t: Trie, d: nat, key: Key) returns (j: nat)
    requires d <= |key| && Lookup(t, key, d).Some? && !Sole(t, d, key)
    ensures d <= j <= |key| && Joint(t, d, key, j) && Rest(t, d, key, j) != Inner(None, map[])
  {
    if d == |key| || Sole(t.kids[key[d]], d + 1, key) {
      j := d;
      if d < |key| { LastKid(t.kids, key[d]); }
    } else {
      j := JointOf(t.kids[key[d]], d + 1, key);
    }
  }
}
