/** What a prefix scan of the catalog lists, and in which order. */
module TrieList {
  import opened Base
  import opened Trie

  type Entry = (Key, Val)

  /** Depth-first: the node's own value before its children in ascending byte order. */
  function Entries(t: Trie, path: Key): seq<Entry>
    decreases t, 257
  {
    match t
    case Leaf(k, v) => [(k, v)]
    case Inner(term, _) => Own(term, path) + From(t, path, 0)
  }

  function Own(term: Option<Val>, path: Key): seq<Entry> { if term.Some? then [(path, term.value)] else [] }

  /** The entries below the children from byte i on. */
  function From(t: Trie, path: Key, i: nat): seq<Entry>
    requires t.Inner? && i <= 256
    decreases t, 256 - i
  {
    if i == 256 then []
    else (if i in t.kids then Entries(t.kids[i], path + [i]) else []) + From(t, path, i + 1)
  }

  /** The entries whose key starts with p, found by first descending along p. */
  function Matching(t: Trie, p: Key, d: nat): seq<Entry>
    requires d <= |p|
  {
    match t
    case Leaf(k, v) => if p <= k then [(k, v)] else []
    case Inner(_, kids) =>
      if d == |p| then Entries(t, p)
      else if p[d] in kids then Matching(kids[p[d]], p, d + 1)
      else []
  }

  // ---------------------------------------------------------------- exactness

  /** Nothing is missed and nothing else is listed. */
  lemma {:induction false} EntriesExact(t: Trie, path: Key, k: Key, v: Val)
    requires Wf(t, path)
    ensures (k, v) in Entries(t, path) <==> path <= k && Lookup(t, k, |path|) == Some(v)
    decreases t, 257
  {
    if t.Inner? {
      FromExact(t, path, 0, k, v);
      assert |path| == |k| && path <= k ==> path == k;
    }
  }

  lemma {:induction false} FromExact(t: Trie, path: Key, i: nat, k: Key, v: Val)
    requires t.Inner? && Wf(t, path) && i <= 256
    ensures (k, v) in From(t, path, i) <==>
            path < k && k[|path|] >= i && k[|path|] in t.kids && Lookup(t.kids[k[|path|]], k, |path| + 1) == Some(v)
    decreases t, 256 - i
  {
    if i < 256 {
      FromExact(t, path, i + 1, k, v);
      if i in t.kids {
        EntriesExact(t.kids[i], path + [i], k, v);
        assert path + [i] <= k <==> path < k && k[|path|] == i;
      }
    }
  }

  /** A prefix scan lists exactly the bindings whose key starts with p. */
  lemma {:induction false} MatchingExact(t: Trie, p: Key, d: nat, k: Key, v: Val)
    requires d <= |p| && Wf(t, p[..d])
    ensures (k, v) in Matching(t, p, d) <==> p <= k && Lookup(t, k, d) == Some(v)
  {
    match t
    case Leaf(_, _) =>
    case Inner(_, kids) =>
      if d == |p| {
        assert p[..d] == p;
        EntriesExact(t, p, k, v);
      } else {
        assert p[..d + 1] == p[..d] + [p[d]];
        if p[d] in kids { MatchingExact(kids[p[d]], p, d + 1, k, v); }
      }
  }

  // ---------------------------------------------------------------- order

  ghost predicate Ascending(es: seq<Entry>) {
    forall i, j | 0 <= i < j < |es| :: LexLess(es[i].0, es[j].0)
  }

  ghost predicate Beneath(es: seq<Entry>, path: Key) { forall i | 0 <= i < |es| :: path <= es[i].0 }

  /** Keys that leave `path` by a byte of at least i. */
  ghost predicate Beyond(es: seq<Entry>, path: Key, i: nat) {
    forall j | 0 <= j < |es| :: path < es[j].0 && es[j].0[|path|] >= i
  }

  lemma {:induction false} EntriesAscend(t: Trie, path: Key)
    requires Wf(t, path)
    ensures Ascending(Entries(t, path)) && Beneath(Entries(t, path), path)
    decreases t, 257
  {
    if t.Inner? {
      FromAscend(t, path, 0);
      var f := From(t, path, 0);
      forall j | 0 <= j < |f| ensures LexLess(path, f[j].0) { LexAt(path, f[j].0, |path|); }
    }
  }

  lemma {:induction false} FromAscend(t: Trie, path: Key, i: nat)
    requires t.Inner? && Wf(t, path) && i <= 256
    ensures Ascending(From(t, path, i)) && Beyond(From(t, path, i), path, i)
    decreases t, 256 - i
  {
    if i < 256 {
      FromAscend(t, path, i + 1);
      if i in t.kids {
        var a, f := Entries(t.kids[i], path + [i]), From(t, path, i + 1);
        EntriesAscend(t.kids[i], path + [i]);
        forall x, y | 0 <= x < |a| && 0 <= y < |f| ensures LexLess(a[x].0, f[y].0) { Apart(a[x].0, f[y].0, path, i); }
        forall x | 0 <= x < |a| ensures path < a[x].0 && a[x].0[|path|] == i { assert path + [i] <= a[x].0; }
      }
    }
  }

  lemma Apart(a: Key, b: Key, path: Key, i: Byte)
    requires path + [i] <= a && path < b && b[|path|] > i
    ensures LexLess(a, b)
  {
    assert a[..|path|] == (path + [i])[..|path|] == path == b[..|path|];
    assert a[|path|] == (path + [i])[|path|];
    LexAt(a, b, |path|);
  }

  /** A prefix scan lists keys in strictly ascending byte order, hence each once. */
  lemma {:induction false} MatchingAscend(t: Trie, p: Key, d: nat)
    requires d <= |p| && Wf(t, p[..d])
    ensures Ascending(Matching(t, p, d))
  {
    match t
    case Leaf(_, _) =>
    case Inner(_, kids) =>
      if d == |p| {
        assert p[..d] == p;
        EntriesAscend(t, p);
      } else {
        assert p[..d + 1] == p[..d] + [p[d]];
        if p[d] in kids { MatchingAscend(kids[p[d]], p, d + 1); }
      }
  }

  // ---------------------------------------------------------------- size and depth

  function Size(t: Trie): (r: nat)
    ensures r > 0
    decreases t, 257
  {
    match t case Leaf(_, _) => 1 case Inner(_, _) => 1 + SizeFrom(t, 0)
  }

  function SizeFrom(t: Trie, i: nat): nat
    requires t.Inner? && i <= 256
    decreases t, 256 - i
  {
    if i == 256 then 0 else (if i in t.kids then Size(t.kids[i]) else 0) + SizeFrom(t, i + 1)
  }

  /** Internal nodes and keys never exceed the writer's key limit. */
  predicate Bounded(t: Trie, d: nat, m: nat) {
    match t
    case Leaf(k, _) => |k| <= m
    case Inner(_, kids) => d <= m && forall b | b in kids :: Bounded(kids[b], d + 1, m)
  }

  lemma {:induction false} BoundedMore(t: Trie, d: nat, m: nat, m': nat)
    requires Bounded(t, d, m) && m <= m'
    ensures Bounded(t, d, m')
  {
    if t.Inner? {
      forall b | b in t.kids ensures Bounded(t.kids[b], d + 1, m') { BoundedMore(t.kids[b], d + 1, m, m'); }
    }
  }

  lemma {:induction false} BranchBounded(ok: Key, ov: Val, nk: Key, nv: Val, d: nat, m: nat)
    requires d <= |ok| && d <= |nk| && ok[..d] == nk[..d] && ok != nk && |ok| <= m && |nk| <= m
    ensures Bounded(Branch(ok, ov, nk, nv, d), d, m)
    decreases |nk| - d
  {
    if d < |ok| && d < |nk| && ok[d] == nk[d] {
      assert ok[..d + 1] == ok[..d] + [ok[d]] && nk[..d + 1] == nk[..d] + [nk[d]];
      BranchBounded(ok, ov, nk, nv, d + 1, m);
    }
  }

  lemma {:induction false} PutBounded(t: Trie, d: nat, key: Key, val: Val, m: nat)
    requires d <= |key| <= m && Wf(t, key[..d]) && Bounded(t, d, m)
    ensures Bounded(Put(t, d, key, val), d, m)
  {
    match t
    case Leaf(k, v) => if k != key { BranchBounded(k, v, key, val, d, m); }
    case Inner(_, kids) =>
      if d < |key| && key[d] in kids {
        assert key[..d + 1] == key[..d] + [key[d]];
        PutBounded(kids[key[d]], d + 1, key, val, m);
      }
  }

  lemma {:induction false} RemoveBounded(t: Trie, d: nat, key: Key, m: nat)
    requires d <= |key| && Bounded(t, d, m)
    ensures Remove(t, d, key).Replaced? ==> Bounded(Remove(t, d, key).t, d, m)
  {
    if t.Inner? && d < |key| && key[d] in t.kids { RemoveBounded(t.kids[key[d]], d + 1, key, m); }
  }
}
