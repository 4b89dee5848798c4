/**
 The catalog trie on the device: node pairs at addresses, and what it means for a
 set of blocks to hold a given tree.
 */
module TrieDisk {
  import opened Base
  import opened Trie

  type Addr = nat

  const BLOCK: nat := 4096

  /** A decoded node block; a slot of zero is an empty child. */
  datatype Node =
    | LeafNode(key: Key, val: Val)
    | InnerNode(term: Option<Val>, slots: seq<Addr>)

  /** Block address to node; a block that fails magic, CRC or tag is absent. */
  type Disk = map<Addr, Node>

  function Get(d: Disk, a: Addr): Option<Node> { if a in d then Some(d[a]) else None }

  /** The primary, or else the backup one block further. */
  function ReadNode(d: Disk, a: Addr): Option<Node> {
    if a in d then Some(d[a]) else Get(d, a + BLOCK)
  }

  /** A trie together with the address of every node. */
  datatype Tree =
    | PLeaf(addr: Addr, key: Key, val: Val)
    | PInner(addr: Addr, term: Option<Val>, kids: map<Byte, Tree>)

  function Slots(kids: map<Byte, Tree>): (r: seq<Addr>)
    ensures |r| == 256
  {
    seq(256, i requires 0 <= i < 256 => if i in kids then kids[i].addr else 0)
  }

  function NodeOf(t: Tree): Node {
    match t
    case PLeaf(_, k, v) => LeafNode(k, v)
    case PInner(_, term, kids) => InnerNode(term, Slots(kids))
  }

  /** Both copies of every node of t are on the device. */
  ghost predicate Stored(d: Disk, t: Tree) {
    && t.addr > 0 && Get(d, t.addr) == Get(d, t.addr + BLOCK) == Some(NodeOf(t))
    && (t.PInner? ==> forall b | b in t.kids :: Stored(d, t.kids[b]))
  }

  /** Forgetting the addresses. */
  function Strip(t: Tree): Trie {
    match t
    case PLeaf(_, k, v) => Leaf(k, v)
    case PInner(_, term, kids) => Inner(term, map b | b in kids :: Strip(kids[b]))
  }

  // ---------------------------------------------------------------- the node multiset

  ghost function Sum(m: map<Byte, multiset<Addr>>, i: nat): multiset<Addr>
    requires i <= 256
    decreases 256 - i
  {
    if i == 256 then multiset{} else (if i in m then m[i] else multiset{}) + Sum(m, i + 1)
  }

  ghost function Nodes(t: Tree): multiset<Addr> {
    match t
    case PLeaf(a, _, _) => multiset{a}
    case PInner(a, _, kids) => multiset{a} + Sum(map b | b in kids :: Nodes(kids[b]), 0)
  }

  ghost function NodeMap(kids: map<Byte, Tree>): map<Byte, multiset<Addr>> {
    map b | b in kids :: Nodes(kids[b])
  }

  ghost function KidNodes(kids: map<Byte, Tree>): multiset<Addr> { Sum(NodeMap(kids), 0) }

  lemma NodesInner(t: Tree)
    requires t.PInner?
    ensures Nodes(t) == multiset{t.addr} + KidNodes(t.kids)
  {
    assert (map b | b in t.kids :: Nodes(t.kids[b])) == NodeMap(t.kids);
  }

  ghost function At(m: map<Byte, multiset<Addr>>, i: int): multiset<Addr> {
    if 0 <= i < 256 && i in m then m[i] else multiset{}
  }

  lemma Shift(x: multiset<Addr>, s: multiset<Addr>, p: multiset<Addr>, t: multiset<Addr>, q: multiset<Addr>)
    requires s + p == t + q
    ensures (x + s) + p == (x + t) + q
  {
    assert (x + s) + p == x + (s + p) && (x + t) + q == x + (t + q);
  }

  lemma {:induction false} SumUpdate(m: map<Byte, multiset<Addr>>, m': map<Byte, multiset<Addr>>, b: Byte, i: nat)
    requires i <= 256
    requires forall c: Byte | c != b :: At(m, c) == At(m', c)
    ensures i <= b ==> Sum(m, i) + At(m', b) == Sum(m', i) + At(m, b)
    ensures i > b ==> Sum(m, i) == Sum(m', i)
    decreases 256 - i
  {
    if i < 256 {
      SumUpdate(m, m', b, i + 1);
      assert Sum(m, i) == At(m, i) + Sum(m, i + 1) && Sum(m', i) == At(m', i) + Sum(m', i + 1);
      if i < b { Shift(At(m, i), Sum(m, i + 1), At(m', b), Sum(m', i + 1), At(m, b)); }
    }
  }

  /** Putting u where child b was swaps exactly the nodes of that child. */
  lemma KidNodesPut(kids: map<Byte, Tree>, b: Byte, u: Tree)
    ensures KidNodes(kids[b := u]) + (if b in kids then Nodes(kids[b]) else multiset{}) == KidNodes(kids) + Nodes(u)
  {
    hide Sum, Nodes;
    var m, m' := NodeMap(kids), NodeMap(kids[b := u]);
    forall c: Byte | c != b ensures At(m, c) == At(m', c) {}
    SumUpdate(m, m', b, 0);
  }

  lemma KidNodesDrop(kids: map<Byte, Tree>, b: Byte)
    requires b in kids
    ensures KidNodes(kids) == KidNodes(kids - {b}) + Nodes(kids[b])
  {
    hide Sum, Nodes;
    var m, m' := NodeMap(kids), NodeMap(kids - {b});
    forall c: Byte | c != b ensures At(m, c) == At(m', c) {}
    SumUpdate(m, m', b, 0);
  }

  lemma SubNodes(t: Tree, b: Byte)
    requires t.PInner? && b in t.kids
    ensures Nodes(t.kids[b]) <= Nodes(t)
  {
    NodesInner(t);
    KidNodesDrop(t.kids, b);
  }

  lemma {:induction false} KidNodesEmpty(i: nat)
    requires i <= 256
    ensures Sum(map[], i) == multiset{}
    decreases 256 - i
  {
    if i < 256 { KidNodesEmpty(i + 1); }
  }

  lemma RootNode(t: Tree)
    ensures t.addr in Nodes(t)
  {
    if t.PInner? { NodesInner(t); }
  }

  /** A block pair reads the same on both devices. */
  ghost predicate SameAt(d: Disk, d': Disk, a: Addr) {
    Get(d, a) == Get(d', a) && Get(d, a + BLOCK) == Get(d', a + BLOCK)
  }

  /** Stored depends only on the blocks of the tree's own nodes. */
  lemma {:induction false} StoredFrame(d: Disk, d': Disk, t: Tree)
    requires Stored(d, t) && forall a | a in Nodes(t) :: SameAt(d, d', a)
    ensures Stored(d', t)
  {
    hide Nodes;
    RootNode(t);
    if t.PInner? {
      forall b | b in t.kids ensures Stored(d', t.kids[b])
      {
        SubNodes(t, b);
        StoredFrame(d, d', t.kids[b]);
      }
    }
  }

  /** At most one copy of the pair is lost, and no stale node takes its place. */
  ghost predicate OneCopy(d: Disk, d': Disk, a: Addr) {
    || (Get(d', a) == Get(d, a) && (Get(d', a + BLOCK) == None || Get(d', a + BLOCK) == Get(d, a + BLOCK)))
    || (Get(d', a) == None && Get(d', a + BLOCK) == Get(d, a + BLOCK))
  }

  /** Losing one copy of any number of pairs leaves every node readable. */
  lemma {:induction false} OneCopySuffices(d: Disk, d': Disk, t: Tree)
    requires Stored(d, t) && forall a | a in Nodes(t) :: OneCopy(d, d', a)
    ensures Readable(d', t)
  {
    hide Nodes;
    RootNode(t);
    if t.PInner? {
      forall b | b in t.kids ensures Readable(d', t.kids[b])
      {
        SubNodes(t, b);
        OneCopySuffices(d, d', t.kids[b]);
      }
    }
  }

  /** The reader sees exactly t under its root address. */
  ghost predicate Readable(d: Disk, t: Tree) {
    && t.addr > 0 && ReadNode(d, t.addr) == Some(NodeOf(t))
    && (t.PInner? ==> forall b | b in t.kids :: Readable(d, t.kids[b]))
  }

  lemma {:induction false} StoredReadable(d: Disk, t: Tree)
    requires Stored(d, t)
    ensures Readable(d, t)
  {
    if t.PInner? {
      forall b | b in t.kids ensures Readable(d, t.kids[b]) { StoredReadable(d, t.kids[b]); }
    }
  }

  /** One root address decodes to one tree. */
  lemma {:induction false} ReadableUnique(d: Disk, t: Tree, u: Tree)
    requires Readable(d, t) && Readable(d, u) && t.addr == u.addr
    ensures t == u
  {
    if t.PInner? {
      forall b: Byte
        ensures b in t.kids <==> b in u.kids
        ensures b in t.kids && b in u.kids ==> t.kids[b] == u.kids[b]
      {
        assert Slots(t.kids)[b] == Slots(u.kids)[b];
        if b in t.kids && b in u.kids { ReadableUnique(d, t.kids[b], u.kids[b]); }
      }
      assert t.kids == u.kids;
    }
  }
}
