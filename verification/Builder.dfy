/**
 The mutable in-memory catalog builder (kernel/sfs_catalog.c): a linked tree
 edited in place, proved to hold exactly the trie that Trie.Put computes.
 */
module Builder {
  import opened Base
  import opened Trie

  const MAX_KEY: nat := 1024

  class Node {
    var leaf: bool
    var key: Key
    var val: Val
    var term: Option<Val>
    var kids: map<Byte, Node>

    constructor Fresh()
      ensures !leaf && term.None? && kids == map[]
    {
      leaf, key, val, term, kids := false, [], [], None, map[];
    }

    constructor Holding(key: Key, val: Val)
      ensures leaf && this.key == key && this.val == val && kids == map[]
    {
      this.leaf, this.key, this.val, term, kids := true, key, val, None, map[];
    }
  }

  /** Which object plays which node of the trie. */
  datatype Shape =
    | LeafAt(n: Node, key: Key, val: Val)
    | InnerAt(n: Node, term: Option<Val>, kids: map<Byte, Shape>)

  ghost function Nodes(s: Shape): set<Node> {
    match s
    case LeafAt(n, _, _) => {n}
    case InnerAt(n, _, kids) => {n} + set b, m | b in kids && m in Nodes(kids[b]) :: m
  }

  ghost function Strip(s: Shape): Trie {
    match s
    case LeafAt(_, k, v) => Leaf(k, v)
    case InnerAt(_, term, kids) => Inner(term, map b | b in kids :: Strip(kids[b]))
  }

  lemma {:induction false} Live(s: Shape)
    ensures forall m | m in Nodes(s) :: allocated(m)
  {
    if s.InnerAt? { forall b | b in s.kids { Live(s.kids[b]); } }
  }

  /** A tree: no node is reachable twice. */
  ghost predicate Sep(s: Shape) {
    s.InnerAt? ==>
      && (forall b | b in s.kids :: s.n !in Nodes(s.kids[b]) && Sep(s.kids[b]))
      && (forall b, c | b in s.kids && c in s.kids && b != c :: Nodes(s.kids[b]) !! Nodes(s.kids[c]))
  }

  /** The objects' fields are what the shape says. */
  ghost predicate Rep(s: Shape)
    reads Nodes(s)
  {
    match s
    case LeafAt(n, k, v) => n.leaf && n.key == k && n.val == v
    case InnerAt(n, term, kids) =>
      && !n.leaf && n.term == term && n.kids.Keys == kids.Keys
      && forall b | b in kids :: n.kids[b] == kids[b].n && Rep(kids[b])
  }

  // ---------------------------------------------------------------- the descent

  /** Internal nodes all the way along key[d..at]. */
  ghost predicate OnPath(s: Shape, key: Key, d: nat, at: nat)
    requires d <= at <= |key|
    decreases at - d
  {
    s.InnerAt? && (d < at ==> key[d] in s.kids && OnPath(s.kids[key[d]], key, d + 1, at))
  }

  ghost function Focus(s: Shape, key: Key, d: nat, at: nat): (f: Shape)
    requires d <= at <= |key| && OnPath(s, key, d, at)
    ensures f.InnerAt? && Nodes(f) <= Nodes(s)
    decreases at - d
  {
    if d == at then s else Focus(s.kids[key[d]], key, d + 1, at)
  }

  ghost function Swap(s: Shape, key: Key, d: nat, at: nat, f: Shape): Shape
    requires d <= at <= |key| && OnPath(s, key, d, at)
    decreases at - d
  {
    if d == at then f else s.(kids := s.kids[key[d] := Swap(s.kids[key[d]], key, d + 1, at, f)])
  }

  /** Everything but the focused node itself is as the shape says. */
  ghost predicate Around(s: Shape, key: Key, d: nat, at: nat)
    requires d <= at <= |key| && OnPath(s, key, d, at) && Sep(s)
    reads Nodes(s) - {Focus(s, key, d, at).n}
    decreases at - d
  {
    && (d < at ==>
          && s.n != Focus(s, key, d, at).n
          && !s.n.leaf && s.n.term == s.term && s.n.kids.Keys == s.kids.Keys && s.n.kids[key[d]] == s.kids[key[d]].n
          && Around(s.kids[key[d]], key, d + 1, at))
    && forall b | b in s.kids && (d == at || b != key[d]) ::
         (d < at ==> s.n.kids[b] == s.kids[b].n) && Focus(s, key, d, at).n !in Nodes(s.kids[b]) && Rep(s.kids[b])
  }

  lemma {:induction false} RepAround(s: Shape, key: Key, d: nat, at: nat)
    requires d <= at <= |key| && OnPath(s, key, d, at) && Sep(s) && Rep(s)
    ensures Around(s, key, d, at) && Rep(Focus(s, key, d, at)) && Sep(Focus(s, key, d, at))
    decreases at - d
  {
    if d < at {
      RepAround(s.kids[key[d]], key, d + 1, at);
      var n := Focus(s, key, d, at).n;
      assert n in Nodes(s.kids[key[d]]);
    }
  }

  lemma {:induction false} Deeper(s: Shape, key: Key, d: nat, at: nat)
    requires d <= at < |key| && OnPath(s, key, d, at)
    requires key[at] in Focus(s, key, d, at).kids && Focus(s, key, d, at).kids[key[at]].InnerAt?
    ensures OnPath(s, key, d, at + 1) && Focus(s, key, d, at + 1) == Focus(s, key, d, at).kids[key[at]]
    decreases at - d
  {
    if d < at { Deeper(s.kids[key[d]], key, d + 1, at); }
  }

  lemma {:induction false} SwapRep(s: Shape, key: Key, d: nat, at: nat, f: Shape)
    requires d <= at <= |key| && OnPath(s, key, d, at) && Sep(s) && Around(s, key, d, at)
    requires Rep(f) && f.n == Focus(s, key, d, at).n
    ensures Rep(Swap(s, key, d, at, f)) && Swap(s, key, d, at, f).n == s.n
        && (f.InnerAt? ==> Swap(s, key, d, at, f).InnerAt?)
    decreases at - d
  {
    hide Sep, Nodes, Rep;
    if d < at {
      assert Sep(s.kids[key[d]]) by { KidSep(s, key[d]); }
      SwapRep(s.kids[key[d]], key, d + 1, at, f);
      SpineRep(s, key[d], Swap(s.kids[key[d]], key, d + 1, at, f));
    }
  }

  lemma SpineRep(s: Shape, b: Byte, c: Shape)
    requires s.InnerAt? && b in s.kids && !s.n.leaf && s.n.term == s.term && s.n.kids.Keys == s.kids.Keys
    requires s.n.kids[b] == c.n && Rep(c) && forall e | e in s.kids && e != b ::
        s.n.kids[e] == s.kids[e].n && Rep(s.kids[e])
    ensures Rep(s.(kids := s.kids[b := c]))
  {}

  lemma KidSep(s: Shape, b: Byte)
    requires s.InnerAt? && Sep(s) && b in s.kids
    ensures Sep(s.kids[b]) && Nodes(s.kids[b]) <= Nodes(s)
  {}

  lemma {:induction false} SwapNodes(s: Shape, key: Key, d: nat, at: nat, f: Shape)
    requires d <= at <= |key| && OnPath(s, key, d, at) && Sep(s)
    requires Sep(f) && Nodes(f) !! (Nodes(s) - Nodes(Focus(s, key, d, at)))
    ensures var r := Swap(s, key, d, at, f); Sep(r) && Nodes(r) <= Nodes(s) - Nodes(Focus(s, key, d, at)) + Nodes(f)
    decreases at - d
  {
    hide Sep, Nodes;
    if d < at {
      var b, was := key[d], Focus(s, key, d, at);
      KidSep(s, b);
      SwapNodes(s.kids[b], key, d + 1, at, f);
      SwapSep(s, b, Swap(s.kids[b], key, d + 1, at, f), Nodes(was), Nodes(f));
    }
  }

  /** Replacing one child by a tree on new nodes. */
  lemma SwapSep(s: Shape, b: Byte, c: Shape, was: set<Node>, now: set<Node>)
    requires s.InnerAt? && Sep(s) && b in s.kids && was <= Nodes(s.kids[b]) && now !! (Nodes(s) - was)
    requires Sep(c) && Nodes(c) <= Nodes(s.kids[b]) - was + now
    ensures var r := s.(kids := s.kids[b := c]); Sep(r) && Nodes(r) <= Nodes(s) - was + now
  {
    var r := s.(kids := s.kids[b := c]);
    assert s.n in Nodes(s) && s.n !in was;
    forall e | e in s.kids && e != b ensures Nodes(s.kids[e]) !! Nodes(c) && Nodes(s.kids[e]) <= Nodes(s) - was {}
  }

  lemma {:induction false} SwapStrip(s: Shape, key: Key, d: nat, at: nat, f: Shape, val: Val)
    requires d <= at <= |key| && OnPath(s, key, d, at) && Wf(Strip(s), key[..d])
    ensures Wf(Strip(Focus(s, key, d, at)), key[..at])
    ensures Strip(f) == Put(Strip(Focus(s, key, d, at)), at, key, val) ==>
              Strip(Swap(s, key, d, at, f)) == Put(Strip(s), d, key, val)
    decreases at - d
  {
    if d < at {
      var kid := s.kids[key[d]];
      assert key[..d + 1] == key[..d] + [key[d]];
      assert Strip(s).kids[key[d]] == Strip(kid);
      SwapStrip(kid, key, d + 1, at, f, val);
    }
  }

  // ---------------------------------------------------------------- splitting a leaf

  method ForkPrefix(shortVal: Val, longKey: Key, longVal: Val, d: nat) returns (n: Node, ghost s: Shape)
    requires d < |longKey|
    ensures s.n == n && Rep(s) && Sep(s) && fresh(Nodes(s))
    ensures Strip(s) == Inner(Some(shortVal), map[longKey[d] := Leaf(longKey, longVal)])
  {
    n := new Node.Fresh();
    n.term := Some(shortVal);
    var lf := new Node.Holding(longKey, longVal);
    n.kids := map[longKey[d] := lf];
    s := InnerAt(n, Some(shortVal), map[longKey[d] := LeafAt(lf, longKey, longVal)]);
    assert Strip(s).kids == map[longKey[d] := Leaf(longKey, longVal)];
  }

  method ForkSplit(ok: Key, ov: Val, nk: Key, nv: Val, d: nat) returns (n: Node, ghost s: Shape)
    requires d < |ok| && d < |nk| && ok[d] != nk[d]
    ensures s.n == n && Rep(s) && Sep(s) && fresh(Nodes(s))
    ensures Strip(s) == Inner(None, map[ok[d] := Leaf(ok, ov), nk[d] := Leaf(nk, nv)])
  {
    n := new Node.Fresh();
    var l1 := new Node.Holding(ok, ov);
    var l2 := new Node.Holding(nk, nv);
    n.kids := map[ok[d] := l1, nk[d] := l2];
    s := InnerAt(n, None, map[ok[d] := LeafAt(l1, ok, ov), nk[d] := LeafAt(l2, nk, nv)]);
    assert Strip(s).kids == map[ok[d] := Leaf(ok, ov), nk[d] := Leaf(nk, nv)];
  }

  /** The node where the two keys part: one ends here, or both go on with different bytes. */
  method Fork(ok: Key, ov: Val, nk: Key, nv: Val, d: nat) returns (n: Node, ghost s: Shape)
    requires d <= |ok| && d <= |nk| && ok[..d] == nk[..d] && ok != nk
    requires d == |ok| || d == |nk| || ok[d] != nk[d]
    ensures s.n == n && Rep(s) && Sep(s) && fresh(Nodes(s)) && Strip(s) == Branch(ok, ov, nk, nv, d)
  {
    hide Rep, Sep, Nodes, Strip;
    if |ok| == |nk| && d == |ok| { SameIfBoth(ok, nk, d); }
    if d < |ok| && d < |nk| { n, s := ForkSplit(ok, ov, nk, nv, d); }
    else if |ok| < |nk| { n, s := ForkPrefix(ov, nk, nv, d); }
    else { n, s := ForkPrefix(nv, ok, ov, d); }
  }

  lemma SameIfBoth(a: Key, b: Key, d: nat)
    requires d == |a| == |b| && a[..d] == b[..d]
    ensures a == b
  {
    assert a == a[..d] && b == b[..d];
  }

  /** A single-child node over an existing tree. */
  method Wrap(n: Node, ghost s: Shape, b: Byte) returns (w: Node, ghost ws: Shape)
    requires s.n == n && Rep(s) && Sep(s)
    ensures ws == InnerAt(w, None, map[b := s]) && Rep(ws) && Sep(ws) && fresh(w) && Nodes(ws) == Nodes(s) + {w}
    ensures Strip(ws) == Inner(None, map[b := Strip(s)])
  {
    hide Sep, Strip, Nodes;
    Live(s);
    w := new Node.Fresh();
    w.kids := map[b := n];
    ws := InnerAt(w, None, map[b := s]);
    WrapNodes(w, b, s);
  }

  lemma WrapNodes(w: Node, b: Byte, s: Shape)
    ensures var ws := InnerAt(w, None, map[b := s]);
            Nodes(ws) == Nodes(s) + {w} && Strip(ws) == Inner(None, map[b := Strip(s)])
                && (Sep(s) && w !in Nodes(s) ==> Sep(ws))
  {
    var ws := InnerAt(w, None, map[b := s]);
    assert Strip(ws).kids == map[b := Strip(s)];
    forall m | m in Nodes(s) ensures m in Nodes(ws) { assert m in Nodes(ws.kids[b]); }
  }

  lemma Agree(ok: Key, nk: Key, d: nat)
    requires d < |ok| && d < |nk|
    ensures ok[..d + 1] == nk[..d + 1] <==> ok[..d] == nk[..d] && ok[d] == nk[d]
  {
    assert ok[..d + 1] == ok[..d] + [ok[d]] && nk[..d + 1] == nk[..d] + [nk[d]];
    assert ok[..d + 1][d] == ok[d] && nk[..d + 1][d] == nk[d] && ok[..d + 1][..d] == ok[..d]
        && nk[..d + 1][..d] == nk[..d];
  }

  /** Replaces a leaf by the smallest tree that tells the two keys apart. */
  method BranchLeaf(ok: Key, ov: Val, nk: Key, nv: Val, depth: nat) returns (n: Node, ghost s: Shape)
    requires depth <= |ok| && depth <= |nk| && ok[..depth] == nk[..depth] && ok != nk
    ensures s.n == n && Rep(s) && Sep(s) && fresh(Nodes(s)) && Strip(s) == Branch(ok, ov, nk, nv, depth)
  {
    hide Rep, Sep, Nodes, Strip;
    var d := depth;
    while d < |ok| && d < |nk| && ok[d] == nk[d]
      invariant depth <= d <= |ok| && d <= |nk| && ok[..d] == nk[..d]
    {
      Agree(ok, nk, d);
      d := d + 1;
    }
    n, s := Fork(ok, ov, nk, nv, d);
    while d > depth
      invariant depth <= d <= |ok| && d <= |nk| && ok[..d] == nk[..d]
      invariant s.n == n && Rep(s) && Sep(s) && fresh(Nodes(s)) && Strip(s) == Branch(ok, ov, nk, nv, d)
    {
      d := d - 1;
      Agree(ok, nk, d);
      n, s := Wrap(n, s, nk[d]);
    }
  }

  // ---------------------------------------------------------------- put

  /** The focused node with one child replaced or added. */
  lemma KidRep(f: Shape, b: Byte, c: Shape)
    requires f.InnerAt? && Rep(c)
    requires !f.n.leaf && f.n.term == f.term && f.n.kids.Keys == f.kids.Keys + {b} && f.n.kids[b] == c.n
    requires forall e | e in f.kids && e != b :: f.n.kids[e] == f.kids[e].n && Rep(f.kids[e])
    ensures Rep(f.(kids := f.kids[b := c]))
    ensures Strip(f.(kids := f.kids[b := c])) == Inner(f.term, Strip(f).kids[b := Strip(c)])
  {
    assert Strip(f.(kids := f.kids[b := c])).kids == Strip(f).kids[b := Strip(c)];
  }

  lemma AddSep(f: Shape, b: Byte, c: Shape)
    requires f.InnerAt? && Sep(f) && Sep(c) && Nodes(c) !! Nodes(f)
    ensures var r := f.(kids := f.kids[b := c]); Sep(r) && Nodes(r) <= Nodes(f) + Nodes(c)
  {
    var r := f.(kids := f.kids[b := c]);
    forall e | e in f.kids && e != b ensures Nodes(f.kids[e]) !! Nodes(c) && Nodes(f.kids[e]) <= Nodes(f) {}
    assert f.n in Nodes(f);
    forall e | e in r.kids ensures r.n !in Nodes(r.kids[e]) && Sep(r.kids[e]) { if e == b { assert r.kids[e] == c; } }
  }

  lemma KidsApart(f: Shape)
    requires f.InnerAt? && Sep(f)
    ensures forall e | e in f.kids :: f.n !in Nodes(f.kids[e])
  {}

  method SetKid(node: Node, ghost f: Shape, b: Byte, child: Node, ghost c: Shape) returns (ghost r: Shape)
    requires f.InnerAt? && f.n == node && Rep(f) && Sep(f) && c.n == child && Rep(c) && Sep(c) && Nodes(c) !! Nodes(f)
    modifies node
    ensures r.InnerAt? && r.n == node && Rep(r) && Sep(r) && Nodes(r) <= Nodes(f) + Nodes(c)
    ensures Strip(r) == Inner(f.term, Strip(f).kids[b := Strip(c)])
  {
    hide Sep, Strip;
    assert forall e | e in f.kids :: node !in Nodes(f.kids[e]) by { KidsApart(f); }
    node.kids := node.kids[b := child];
    KidRep(f, b, c);
    AddSep(f, b, c);
    r := f.(kids := f.kids[b := c]);
  }

  /** A tree on the heap with this root. */
  ghost predicate Tree(root: Node, s: Shape)
    reads Nodes(s)
  {
    s.InnerAt? && s.n == root && Rep(s) && Sep(s) && Wf(Strip(s), [])
  }

  lemma TermStrip(f: Shape, term: Option<Val>)
    requires f.InnerAt?
    ensures var r := f.(term := term);
        Strip(r) == Inner(term, Strip(f).kids) && Nodes(r) == Nodes(f) && (Sep(f) ==> Sep(r))
  {}

  lemma InnerFields(f: Shape)
    requires f.InnerAt? && Rep(f)
    ensures f.n.kids.Keys == f.kids.Keys && f.n in Nodes(f)
  {}

  lemma LeafFields(f: Shape, b: Byte, path: Key)
    requires f.InnerAt? && Rep(f) && Wf(Strip(f), path) && b in f.kids && f.kids[b].LeafAt?
    ensures b in f.n.kids && var n := f.n.kids[b]; f.kids[b] == LeafAt(n, n.key, n.val) && path + [b] <= n.key
  {
    assert Strip(f).kids[b] == Strip(f.kids[b]);
  }

  method NewLeaf(key: Key, val: Val) returns (n: Node, ghost s: Shape)
    ensures s == LeafAt(n, key, val) && Rep(s) && Sep(s) && fresh(Nodes(s)) && Strip(s) == Leaf(key, val)
  {
    n := new Node.Holding(key, val);
    s := LeafAt(n, key, val);
  }

  lemma PutAtKid(f: Shape, c: Shape, key: Key, val: Val, depth: nat)
    requires depth < |key| && f.InnerAt? && Wf(Strip(f), key[..depth])
    requires key[depth] in f.kids ==> f.kids[key[depth]].LeafAt?
    requires Strip(c) == if key[depth] !in f.kids || f.kids[key[depth]].key == key then Leaf(key, val)
                         else LeafSplit(f.kids[key[depth]], key, val, depth)
    ensures Inner(f.term, Strip(f).kids[key[depth] := Strip(c)]) == Put(Strip(f), depth, key, val)
  {
    var b := key[depth];
    assert key[..depth + 1] == key[..depth] + [b];
    if b in f.kids { assert Strip(f).kids[b] == Strip(f.kids[b]); }
  }

  /** What a leaf that holds another key turns into. */
  ghost function LeafSplit(l: Shape, key: Key, val: Val, depth: nat): Trie
    requires l.LeafAt? && depth < |key|
  {
    if depth + 1 <= |l.key| && l.key[..depth + 1] == key[..depth + 1] && l.key != key then
        Branch(l.key, l.val, key, val, depth + 1)
    else EmptyRoot
  }

  /** The child for one more key: a leaf, or the split of the leaf that is in the way. */
  method NextKid(node: Node, ghost f: Shape, key: Key, val: Val, depth: nat) returns (child: Node, ghost c: Shape)
    requires depth < |key| && f.InnerAt? && f.n == node && Rep(f) && Wf(Strip(f), key[..depth])
    requires key[depth] in f.kids ==> f.kids[key[depth]].LeafAt?
    ensures c.n == child && Rep(c) && Sep(c) && fresh(Nodes(c))
    ensures Strip(c) == if key[depth] !in f.kids || f.kids[key[depth]].key == key then Leaf(key, val)
                        else LeafSplit(f.kids[key[depth]], key, val, depth)
  {
    hide Nodes, Strip, Rep, Sep, Branch;
    var b := key[depth];
    InnerFields(f);
    if b !in node.kids {
      child, c := NewLeaf(key, val);
    } else {
      LeafFields(f, b, key[..depth]);
      var was := node.kids[b];
      if was.key == key {
        child, c := NewLeaf(key, val);
      } else {
        assert key[..depth + 1] == key[..depth] + [b] == was.key[..depth + 1];
        child, c := BranchLeaf(was.key, was.val, key, val, depth + 1);
      }
    }
  }

  /** One edit of the focused node: what it becomes is what Trie.Put makes of it. */
  method Edit(node: Node, ghost f: Shape, key: Key, val: Val, depth: nat) returns (ghost r: Shape)
    requires depth <= |key| && f.InnerAt? && f.n == node && Rep(f) && Sep(f) && Wf(Strip(f), key[..depth])
    requires depth < |key| && key[depth] in f.kids ==> f.kids[key[depth]].LeafAt?
    modifies node
    ensures r.InnerAt? && r.n == node && Rep(r) && Sep(r) && Strip(r) == Put(Strip(f), depth, key, val)
    ensures forall m | m in Nodes(r) :: m in Nodes(f) || fresh(m)
  {
    if depth == |key| {
      node.term := Some(val);
      r := f.(term := Some(val));
      TermStrip(f, Some(val));
      return;
    }
    hide Nodes, Strip, Rep, Sep, Put;
    Live(f);
    InnerFields(f);
    var child;
    ghost var c;
    child, c := NextKid(node, f, key, val, depth);
    r := SetKid(node, f, key[depth], child, c);
    PutAtKid(f, c, key, val, depth);
  }

  lemma PathStart(s: Shape, key: Key)
    requires s.InnerAt?
    ensures OnPath(s, key, 0, 0) && Focus(s, key, 0, 0) == s && key[..0] == []
  {}

  lemma KidFields(f: Shape, b: Byte)
    requires f.InnerAt? && Rep(f) && b in f.kids
    ensures b in f.n.kids && f.n.kids[b] == f.kids[b].n && (f.n.kids[b].leaf <==> f.kids[b].LeafAt?)
  {}

  lemma PutWf(t: Trie, key: Key, val: Val)
    requires Wf(t, [])
    ensures Wf(Put(t, 0, key, val), [])
  {
    PutLookup(t, 0, key, val, key);
  }

  lemma FocusNodes(s: Shape, key: Key, at: nat)
    requires at <= |key| && OnPath(s, key, 0, at)
    ensures Focus(s, key, 0, at).n in Nodes(s)
  {}

  /** Inserts in place: the heap afterwards holds exactly Trie.Put of what it held before. */
  method PutKey(root: Node, ghost s: Shape, key: Key, val: Val) returns (ok: bool, ghost r: Shape)
    requires Tree(root, s)
    modifies Nodes(s)
    ensures ok <==> |key| <= MAX_KEY
    ensures !ok ==> r == s && Tree(root, s)
    ensures ok ==> Tree(root, r) && Strip(r) == Put(Strip(s), 0, key, val) && forall m | m in Nodes(r) ::
        m in Nodes(s) || fresh(m)
  {
    hide Nodes, Strip, Rep, Sep, Put, OnPath, Around, Swap;
    r := s;
    Live(s);
    if |key| > MAX_KEY { return false, s; }
    var node, depth := root, 0;
    PathStart(s, key);
    while depth < |key|
      invariant Tree(root, s)
      invariant depth <= |key| && OnPath(s, key, 0, depth) && node == Focus(s, key, 0, depth).n
    {
      ghost var f := Focus(s, key, 0, depth);
      RepAround(s, key, 0, depth);
      InnerFields(f);
      var b := key[depth];
      if b !in node.kids { break; }
      KidFields(f, b);
      if node.kids[b].leaf { break; }
      Deeper(s, key, 0, depth);
      node, depth := node.kids[b], depth + 1;
    }
    ghost var f := Focus(s, key, 0, depth);
    RepAround(s, key, 0, depth);
    SwapStrip(s, key, 0, depth, s, val);
    FocusNodes(s, key, depth);
    ghost var g := Edit(node, f, key, val, depth);
    SwapRep(s, key, 0, depth, g);
    SwapNodes(s, key, 0, depth, g);
    SwapStrip(s, key, 0, depth, g, val);
    r := Swap(s, key, 0, depth, g);
    PutWf(Strip(s), key, val);
    ok := true;
  }

  /** A new builder is the empty trie. */
  method New() returns (root: Node, ghost s: Shape)
    ensures Tree(root, s) && Strip(s) == EmptyRoot && fresh(Nodes(s))
  {
    root := new Node.Fresh();
    s := InnerAt(root, None, map[]);
    assert Strip(s).kids == map[];
  }

  predicate Short(entries: seq<(Key, Val)>) { forall i | 0 <= i < |entries| :: |entries[i].0| <= MAX_KEY }

  /** The root a bulk writer leaves: with no entries it is still a node, the empty one. */
  ghost function Written(entries: seq<(Key, Val)>): Trie {
    var t := PutAll(entries);
    if t.Some? then t.value else EmptyRoot
  }

  /** Building from a list: the heap holds the trie the same puts give on disk. */
  method Build(entries: seq<(Key, Val)>) returns (root: Node, ghost s: Shape)
    requires Short(entries)
    ensures Tree(root, s) && Strip(s) == Written(entries)
  {
    hide Nodes, Strip, Rep, Sep, Put;
    root, s := New();
    for i := 0 to |entries|
      invariant Tree(root, s) && fresh(Nodes(s))
      invariant Strip(s) == if i == 0 then EmptyRoot else PutAll(entries[..i]).value
      invariant i > 0 ==> PutAll(entries[..i]).Some?
    {
      var ok;
      ok, s := PutKey(root, s, entries[i].0, entries[i].1);
      assert entries[..i + 1][..i] == entries[..i];
    }
    assert entries[..|entries|] == entries;
  }
}
