/**
 The catalog reader (kernel/sfs_trie.c): lookup and prefix scan over whatever the
 device holds.  Both stop on any contents, cyclic child pointers included; on a
 readable trie they compute Lookup and the listing of TrieList.dfy.
 */
module TrieReader {
  import opened Base
  import opened Trie
  import opened TrieDisk
  import opened TrieList

  const MAX_DEPTH := 1088
  const BUDGET := 65536

  datatype ReadStatus = Found(val: Val) | NotFound | BadNode | Loop | TooDeep

  /** The fan-out of a decoded internal node is fixed by its layout. */
  ghost predicate Decoded(d: Disk) {
    forall a | a in d :: d[a].InnerNode? ==> |d[a].slots| == 256
  }

  ghost predicate Holds(d: Disk, root: Addr, t: Tree) {
    Readable(d, t) && t.addr == root && Wf(Strip(t), [])
  }

  lemma KidReadable(d: Disk, t: Tree, b: Byte)
    requires Readable(d, t) && t.PInner?
    ensures Slots(t.kids)[b] == 0 <==> b !in t.kids
    ensures b in t.kids ==>
        Slots(t.kids)[b] == t.kids[b].addr && Strip(t).kids[b] == Strip(t.kids[b]) && Readable(d, t.kids[b])
    ensures b in t.kids <==> b in Strip(t).kids
  {}

  lemma ReadsNode(d: Disk, t: Tree)
    requires Readable(d, t)
    ensures ReadNode(d, t.addr) == Some(NodeOf(t))
    ensures t.PLeaf? ==> Strip(t) == Leaf(t.key, t.val)
    ensures t.PInner? ==> Strip(t).Inner? && Strip(t).term == t.term
  {}

  /** sfs_trie_lookup: exact for every key within the depth cap. */
  method Find(d: Disk, root: Addr, key: Key, ghost t: Tree) returns (r: ReadStatus)
    requires Decoded(d)
    ensures root == 0 ==> r == NotFound
    ensures root != 0 && Holds(d, root, t) ==>
      && (r.Found? ==> Lookup(Strip(t), key, 0) == Some(r.val))
      && (r.NotFound? ==> Lookup(Strip(t), key, 0) == None)
      && (r.Found? || r.NotFound? || (r.TooDeep? && |key| > MAX_DEPTH && !Bounded(Strip(t), 0, MAX_DEPTH - 1)))
  {
    hide Readable, Slots, Strip;
    if root == 0 { return NotFound; }
    var addr, depth, visited := root, 0, 0;
    ghost var good := Holds(d, root, t);
    ghost var w := t;
    while true
      invariant depth <= |key| && depth <= MAX_DEPTH && visited == depth
      invariant good ==> Readable(d, w) && w.addr == addr && Lookup(Strip(w), key, depth) == Lookup(Strip(t), key, 0)
      invariant good ==> (Bounded(Strip(t), 0, MAX_DEPTH - 1) ==> Bounded(Strip(w), depth, MAX_DEPTH - 1))
      decreases BUDGET + 1 - visited
    {
      if visited >= BUDGET { return Loop; }
      visited := visited + 1;
      var n := ReadNode(d, addr);
      if good { ReadsNode(d, w); }
      if n.None? { return BadNode; }
      match n.value
      case LeafNode(k, v) =>
        return if k == key then Found(v) else NotFound;
      case InnerNode(term, slots) =>
        if depth == |key| { return if term.Some? then Found(term.value) else NotFound; }
        if depth >= MAX_DEPTH { return TooDeep; }
        if good { KidReadable(d, w, key[depth]); }
        var child := slots[key[depth]];
        if child == 0 { return NotFound; }
        if good { w := w.kids[key[depth]]; }
        addr, depth := child, depth + 1;
    }
  }

  // ---------------------------------------------------------------- scan

  datatype ScanStatus = Done | Stopped | TooLong | Corrupt | OverBudget | OverDeep

  /** The callback's answer to the last of the entries it has been given: whether to stop. */
  type Callback = seq<Entry> -> bool

  /** No entry delivered so far made the callback stop. */
  ghost predicate Going(stop: Callback, out: seq<Entry>) { forall n | 0 < n <= |out| :: !stop(out[..n]) }

  /** The scan stops exactly at the first entry at which the callback says so. */
  ghost predicate Delivered(stop: Callback, st: ScanStatus, out: seq<Entry>) {
    if st.Stopped? then out != [] && stop(out) && Going(stop, out[..|out| - 1]) else Going(stop, out)
  }

  lemma DeliveredOne(stop: Callback, out: seq<Entry>, out': seq<Entry>)
    requires Going(stop, out) && out <= out' && |out'| == |out| + 1
    ensures stop(out') ==> Delivered(stop, Stopped, out')
    ensures !stop(out') ==> Going(stop, out')
  {
    assert out'[..|out|] == out;
    forall n | 0 < n <= |out'| ensures out'[..n] == if n <= |out| then out[..n] else out' {}
  }

  /** One stack frame of the walk: a decoded node and how far it has been listed. */
  datatype Cell = Cell(node: Node, emitted: bool, next: nat)

  /** The subtree of a frame, its path, and what is listed once the frame is done. */
  datatype Level = Level(tree: Tree, path: Key, after: seq<Entry>, more: nat)

  ghost function CellRest(w: Tree, path: Key, c: Cell): seq<Entry>
    requires c.next <= 256
  {
    if w.PLeaf? then [(w.key, w.val)]
    else (if c.emitted then [] else Own(w.term, path)) + From(Strip(w), path, c.next)
  }

  ghost function CellSize(w: Tree, c: Cell): nat
    requires c.next <= 256
  {
    if w.PLeaf? then 0 else SizeFrom(Strip(w), c.next)
  }

  ghost predicate LevelOk(d: Disk, fits: bool, l: Level, c: Cell, depth: nat) {
    && (fits ==> Bounded(Strip(l.tree), depth, MAX_DEPTH - 1)) && c.next <= 256 && c.node == NodeOf(l.tree)
        && Readable(d, l.tree)
    && |l.path| == depth && Wf(Strip(l.tree), l.path)
  }

  ghost predicate Below(l: Level, m: Level, c: Cell) {
    && c.next <= 256 && l.path <= m.path
    && m.after == CellRest(l.tree, l.path, c) + l.after && m.more == CellSize(l.tree, c) + l.more
  }

  ghost predicate Chain(d: Disk, fits: bool, levels: seq<Level>, cells: seq<Cell>, base: nat) {
    && |levels| == |cells| && (forall i | 0 <= i < |cells| :: cells[i].next <= 256)
    && (forall i | 0 <= i < |cells| :: LevelOk(d, fits, levels[i], cells[i], base + i))
    && (forall i, j | 0 <= i < j < |cells| && j == i + 1 :: Below(levels[i], levels[j], cells[i]))
    && (|levels| > 0 ==> levels[0].after == [] && levels[0].more == 0)
  }

  /** What the frames on the stack have yet to list, and how many nodes they have yet to visit. */
  ghost function Rest(levels: seq<Level>, cells: seq<Cell>): seq<Entry>
    requires |levels| == |cells| && forall i | 0 <= i < |cells| :: cells[i].next <= 256
  {
    var n := |levels|;
    if n == 0 then [] else CellRest(levels[n - 1].tree, levels[n - 1].path, cells[n - 1]) + levels[n - 1].after
  }

  ghost function RestSize(levels: seq<Level>, cells: seq<Cell>): nat
    requires |levels| == |cells| && forall i | 0 <= i < |cells| :: cells[i].next <= 256
  {
    var n := |levels|;
    if n == 0 then 0 else CellSize(levels[n - 1].tree, cells[n - 1]) + levels[n - 1].more
  }

  lemma PopKeeps(d: Disk, fits: bool, levels: seq<Level>, cells: seq<Cell>, base: nat)
    requires Chain(d, fits, levels, cells, base) && |cells| > 0
    ensures var n := |cells| - 1;
            && Chain(d, fits, levels[..n], cells[..n], base)
            && Rest(levels[..n], cells[..n]) == levels[n].after && RestSize(levels[..n], cells[..n]) == levels[n].more
  {
    hide CellRest, CellSize, LevelOk;
    var n := |cells| - 1;
    forall i | 0 <= i < n ensures LevelOk(d, fits, levels[i], cells[i], base + i) {}
    if n > 0 { assert Below(levels[n - 1], levels[n], cells[n - 1]); }
  }

  /** Changing only the cursor of the top frame. */
  lemma TopKeeps(d: Disk, fits: bool, levels: seq<Level>, cells: seq<Cell>, base: nat, c: Cell)
    requires Chain(d, fits, levels, cells, base) && |cells| > 0
    requires c.node == cells[|cells| - 1].node && c.next <= 256
    ensures var n := |cells| - 1;
            && Chain(d, fits, levels, cells[n := c], base)
            && Rest(levels, cells[n := c]) == CellRest(levels[n].tree, levels[n].path, c) + levels[n].after
            && RestSize(levels, cells[n := c]) == CellSize(levels[n].tree, c) + levels[n].more
  {
    hide CellRest, CellSize, Readable;
    var n := |cells| - 1;
    forall i | 0 <= i <= n ensures LevelOk(d, fits, levels[i], cells[n := c][i], base + i)
        { assert LevelOk(d, fits, levels[i], cells[i], base + i); }
    forall i, j | 0 <= i < j <= n && j == i + 1 ensures Below(levels[i], levels[j], cells[n := c][i]) {}
  }

  lemma ChainPush(d: Disk, fits: bool, levels: seq<Level>, cells: seq<Cell>, base: nat, m: Level, c: Cell)
    requires Chain(d, fits, levels, cells, base) && |cells| > 0 && LevelOk(d, fits, m, c, base + |cells|)
        && c.next <= 256
    requires Below(levels[|cells| - 1], m, cells[|cells| - 1])
    ensures Chain(d, fits, levels + [m], cells + [c], base)
  {
    hide LevelOk, Below;
    var levels', cells' := levels + [m], cells + [c];
    forall i | 0 <= i < |cells'| ensures LevelOk(d, fits, levels'[i], cells'[i], base + i) {}
    forall i, j | 0 <= i < j < |cells'| && j == i + 1 ensures Below(levels'[i], levels'[j], cells'[i]) {}
  }

  lemma PushKeeps(d: Disk, fits: bool, levels: seq<Level>, cells: seq<Cell>, base: nat, kid: Tree, b: Byte)
    requires Chain(d, fits, levels, cells, base) && |cells| > 0
    requires var l := levels[|cells| - 1]; l.tree.PInner? && b in l.tree.kids && kid == l.tree.kids[b]
    ensures var l := levels[|cells| - 1];
            var m := Level(kid, l.path + [b], Rest(levels, cells), RestSize(levels, cells));
            var cells', levels' := cells + [Cell(NodeOf(kid), false, 0)], levels + [m];
            && Chain(d, fits, levels', cells', base)
            && Rest(levels', cells') == Entries(Strip(kid), l.path + [b]) + Rest(levels, cells)
            && RestSize(levels', cells') + 1 == Size(Strip(kid)) + RestSize(levels, cells)
  {
    hide CellRest, CellSize, Readable, Slots, Entries, Size, NodeOf;
    var n := |cells| - 1;
    var l := levels[n];
    var m, c := Level(kid, l.path + [b], Rest(levels, cells), RestSize(levels, cells)), Cell(NodeOf(kid), false, 0);
    KidLevel(d, fits, l, cells[n], base + n, b, m, c);
    ChainPush(d, fits, levels, cells, base, m, c);
    FreshCell(kid, l.path + [b]);
  }

  lemma KidLevel(d: Disk, fits: bool, l: Level, c: Cell, depth: nat, b: Byte, m: Level, k: Cell)
    requires LevelOk(d, fits, l, c, depth) && l.tree.PInner? && b in l.tree.kids
    requires m.tree == l.tree.kids[b] && m.path == l.path + [b] && k == Cell(NodeOf(m.tree), false, 0)
    ensures LevelOk(d, fits, m, k, depth + 1)
  {
    KidReadable(d, l.tree, b);
  }

  lemma FreshCell(w: Tree, path: Key)
    ensures var c := Cell(NodeOf(w), false, 0);
            CellRest(w, path, c) == Entries(Strip(w), path) && CellSize(w, c) + 1 == Size(Strip(w))
  {}

  ghost predicate CellsOk(cells: seq<Cell>) {
    forall i | 0 <= i < |cells| :: cells[i].next <= 256 && (cells[i].node.InnerNode? ==> |cells[i].node.slots| == 256)
  }

  /** What has been listed and what is still to come make up the whole listing. */
  ghost predicate Walking(d: Disk, fits: bool, levels: seq<Level>, cells: seq<Cell>, base: nat, buf: Key,
      listing: seq<Entry>,
                          total: nat, out: seq<Entry>, visited: nat)
  {
    && Chain(d, fits, levels, cells, base) && out + Rest(levels, cells) == listing
        && visited + RestSize(levels, cells) <= total
    && base + |cells| <= |buf| + 1 && (|cells| > 0 ==> buf[..base + |cells| - 1] == levels[|cells| - 1].path)
  }

  lemma Popped(d: Disk, fits: bool, levels: seq<Level>, cells: seq<Cell>, base: nat, buf: Key, listing: seq<Entry>,
      total: nat,
               out: seq<Entry>, visited: nat, more: seq<Entry>)
    requires Walking(d, fits, levels, cells, base, buf, listing, total, out, visited) && |cells| > 0
    requires var n := |cells| - 1; CellRest(levels[n].tree, levels[n].path, cells[n]) == more
    ensures var n := |cells| - 1;
        Walking(d, fits, levels[..n], cells[..n], base, buf, listing, total, out + more, visited)
  {
    hide CellRest, CellSize, LevelOk;
    var n := |cells| - 1;
    PopKeeps(d, fits, levels, cells, base);
    assert (out + more) + levels[n].after == out + (more + levels[n].after);
    if n > 0 {
      assert Below(levels[n - 1], levels[n], cells[n - 1]);
      assert |levels[n - 1].path| == base + n - 1 by
          { assert LevelOk(d, fits, levels[n - 1], cells[n - 1], base + (n - 1));
            LevelLen(d, fits, levels[n - 1], cells[n - 1], base + (n - 1)); }
      assert buf[..base + n - 1] == buf[..base + n][..base + n - 1];
    }
  }

  lemma LevelLen(d: Disk, fits: bool, l: Level, c: Cell, depth: nat)
    requires LevelOk(d, fits, l, c, depth)
    ensures c.next <= 256 && |l.path| == depth && c.node == NodeOf(l.tree) && Readable(d, l.tree)
        && Wf(Strip(l.tree), l.path)
    ensures fits && l.tree.PInner? ==> depth < MAX_DEPTH
  {}

  lemma Moved(d: Disk, fits: bool, levels: seq<Level>, cells: seq<Cell>, base: nat, buf: Key, listing: seq<Entry>,
      total: nat,
              out: seq<Entry>, visited: nat, c: Cell, more: seq<Entry>)
    requires Walking(d, fits, levels, cells, base, buf, listing, total, out, visited) && |cells| > 0
    requires c.node == cells[|cells| - 1].node && c.next <= 256
    requires var n := |cells| - 1;
             && CellRest(levels[n].tree, levels[n].path, cells[n]) == more + CellRest(levels[n].tree, levels[n].path, c)
             && CellSize(levels[n].tree, c) <= CellSize(levels[n].tree, cells[n])
    ensures Walking(d, fits, levels, cells[|cells| - 1 := c], base, buf, listing, total, out + more, visited)
  {
    hide CellRest, CellSize, LevelOk;
    var n := |cells| - 1;
    var l := levels[n];
    TopKeeps(d, fits, levels, cells, base, c);
    assert (out + more) + (CellRest(l.tree, l.path, c) + l.after)
        == out + ((more + CellRest(l.tree, l.path, c)) + l.after);
  }

  lemma TermRest(w: Tree, path: Key, c: Cell)
    requires w.PInner? && c.next <= 256 && !c.emitted
    ensures CellRest(w, path, c) == Own(w.term, path) + CellRest(w, path, c.(emitted := true))
    ensures CellSize(w, c) == CellSize(w, c.(emitted := true))
  {
    assert [] + From(Strip(w), path, c.next) == From(Strip(w), path, c.next);
  }

  lemma SkipRest(d: Disk, w: Tree, path: Key, c: Cell)
    requires w.PInner? && Readable(d, w) && c.next < 256 && Slots(w.kids)[c.next] == 0
    ensures CellRest(w, path, c) == [] + CellRest(w, path, c.(next := c.next + 1))
    ensures CellSize(w, c) == CellSize(w, c.(next := c.next + 1))
  {
    KidReadable(d, w, c.next);
    assert [] + From(Strip(w), path, c.next + 1) == From(Strip(w), path, c.next + 1);
  }

  /** Taking child c.next off the frame's remaining work. */
  lemma TakeRest(d: Disk, w: Tree, path: Key, c: Cell)
    requires w.PInner? && Readable(d, w) && c.next < 256 && Slots(w.kids)[c.next] != 0 && c.emitted
    ensures c.next in w.kids && Slots(w.kids)[c.next] == w.kids[c.next].addr
    ensures CellRest(w, path, c) == Entries(Strip(w.kids[c.next]), path + [c.next])
        + CellRest(w, path, c.(next := c.next + 1))
    ensures CellSize(w, c) == Size(Strip(w.kids[c.next])) + CellSize(w, c.(next := c.next + 1))
    ensures ReadNode(d, w.kids[c.next].addr) == Some(NodeOf(w.kids[c.next]))
  {
    KidReadable(d, w, c.next);
    ReadsNode(d, w.kids[c.next]);
    assert [] + From(Strip(w), path, c.next) == From(Strip(w), path, c.next);
    assert [] + From(Strip(w), path, c.next + 1) == From(Strip(w), path, c.next + 1);
  }

  lemma LeafRest(w: Tree, path: Key, c: Cell, prefix: Key)
    requires w.PLeaf? && c.next <= 256 && Wf(Strip(w), path) && prefix <= path
    ensures CellRest(w, path, c) == [(w.key, w.val)] && prefix <= w.key
  {}

  lemma DoneRest(w: Tree, path: Key, c: Cell)
    requires w.PInner? && c.next == 256 && c.emitted
    ensures CellRest(w, path, c) == []
  {}

  lemma Pushed(d: Disk, fits: bool, levels: seq<Level>, cells: seq<Cell>, base: nat, buf: Key, listing: seq<Entry>,
      total: nat,
               out: seq<Entry>, visited: nat) returns (levels': seq<Level>)
    requires Walking(d, fits, levels, cells, base, buf, listing, total, out, visited) && |cells| > 0
    requires var n := |cells| - 1; var w, c := levels[n].tree, cells[n];
             w.PInner? && c.next < 256 && Slots(w.kids)[c.next] != 0 && c.emitted && base + n < |buf|
    ensures visited < total && var n := |cells| - 1; var w, c := levels[n].tree, cells[n]; var b := c.next;
            && b in w.kids && ReadNode(d, Slots(w.kids)[b]) == Some(NodeOf(w.kids[b]))
            && Walking(d, fits, levels', cells[n := c.(next := b + 1)] + [Cell(NodeOf(w.kids[b]), false, 0)], base,
                       buf[base + n := b], listing, total, out, visited + 1)
  {
    hide CellRest, CellSize, Entries, Slots, NodeOf, Readable, Size, LevelOk, Below, Strip, Wf;
    TopFacts(d, fits, levels, cells, base, buf, listing, total, out, visited);
    var n := |cells| - 1;
    var l, c := levels[n], cells[n];
    var b, w, path := c.next, l.tree, l.path;
    TakeRest(d, w, path, c);
    var c' := c.(next := b + 1);
    TopKeeps(d, fits, levels, cells, base, c');
    var cells1 := cells[n := c'];
    PushKeeps(d, fits, levels, cells1, base, w.kids[b], b);
    var m := Level(w.kids[b], path + [b], Rest(levels, cells1), RestSize(levels, cells1));
    levels' := levels + [m];
    var cells' := cells1 + [Cell(NodeOf(w.kids[b]), false, 0)];
    Regroup(Entries(Strip(w.kids[b]), path + [b]), CellRest(w, path, c'), l.after);
    assert Rest(levels', cells') == Rest(levels, cells);
    PathGrows(buf, base + n, b);
    assert Walking(d, fits, levels', cells', base, buf[base + n := b], listing, total, out, visited + 1);
  }

  /** Where the top frame stands in a good walk. */
  lemma Regroup(a: seq<Entry>, b: seq<Entry>, c: seq<Entry>)
    ensures a + (b + c) == (a + b) + c
  {}

  lemma PathGrows(buf: Key, n: nat, b: Byte)
    requires n < |buf|
    ensures buf[n := b][..n + 1] == buf[..n] + [b]
  {}

  lemma TopFacts(d: Disk, fits: bool, levels: seq<Level>, cells: seq<Cell>, base: nat, buf: Key, listing: seq<Entry>,
      total: nat,
                 out: seq<Entry>, visited: nat)
    requires Walking(d, fits, levels, cells, base, buf, listing, total, out, visited) && |cells| > 0
    ensures |levels| == |cells| && base + |cells| <= |buf| + 1 && var n := |cells| - 1; var l, c := levels[n], cells[n];
            && c.next <= 256 && c.node == NodeOf(l.tree) && Readable(d, l.tree) && Wf(Strip(l.tree), l.path)
            && l.path == buf[..base + n] && (fits && l.tree.PInner? ==> base + n < MAX_DEPTH)
  {
    hide CellRest, CellSize, LevelOk;
    var n := |cells| - 1;
    LevelLen(d, fits, levels[n], cells[n], base + n);
  }

  /** The top frame lists its own value, if it has one and has not listed it yet. */
  method EmitTerm(cells: seq<Cell>, buf: array<Byte>, base: nat, out0: seq<Entry>, ghost good: bool, ghost d: Disk,
      ghost fits: bool,
                  ghost levels: seq<Level>, ghost listing: seq<Entry>, ghost total: nat, ghost visited: nat)
    returns (out: seq<Entry>)
    requires |cells| > 0 && CellsOk(cells) && cells[|cells| - 1].node.InnerNode? && base + |cells| - 1 <= buf.Length
    requires good ==> Walking(d, fits, levels, cells, base, buf[..], listing, total, out0, visited)
    ensures var n := |cells| - 1; var c := cells[n].(emitted := true);
            good ==> Walking(d, fits, levels, cells[n := c], base, buf[..], listing, total, out, visited)
    ensures out0 <= out && |out| <= |out0| + 1
  {
    hide CellRest, CellSize, Chain, Rest, RestSize, Readable, NodeOf, Wf;
    var n := |cells| - 1;
    var top := cells[n];
    out := out0;
    if good { TopFacts(d, fits, levels, cells, base, buf[..], listing, total, out, visited); NodeKind(levels[n].tree); }
    if !top.emitted {
      if top.node.term.Some? { out := out + [(buf[..base + n], top.node.term.value)]; }
      if good {
        TermRest(levels[n].tree, levels[n].path, top);
        assert buf[..][..base + n] == buf[..base + n];
        Moved(d, fits, levels, cells, base, buf[..], listing, total, out0, visited, top.(emitted := true),
            Own(top.node.term, levels[n].path));
        assert out == out0 + Own(top.node.term, levels[n].path);
      }
    } else {
      assert cells[n := top.(emitted := true)] == cells;
    }
  }

  lemma NodeKind(t: Tree)
    ensures NodeOf(t).LeafNode? <==> t.PLeaf?
    ensures t.PLeaf? ==> NodeOf(t) == LeafNode(t.key, t.val)
    ensures t.PInner? ==> NodeOf(t) == InnerNode(t.term, Slots(t.kids))
  {}

  /** The next occupied slot of the top frame, or 256. */
  method NextSlot(cells: seq<Cell>, ghost buf: Key, ghost base: nat, ghost out: seq<Entry>, ghost good: bool,
      ghost d: Disk, ghost fits: bool,
                  ghost levels: seq<Level>, ghost listing: seq<Entry>, ghost total: nat,
                      ghost visited: nat) returns (next: nat)
    requires |cells| > 0 && CellsOk(cells) && cells[|cells| - 1].node.InnerNode?
    requires good ==> Walking(d, fits, levels, cells, base, buf, listing, total, out, visited)
    ensures var n := |cells| - 1; var c := cells[n].(next := next);
            && cells[n].next <= next <= 256 && (next < 256 ==> c.node.slots[next] != 0)
            && (forall i | cells[n].next <= i < next :: c.node.slots[i] == 0)
            && (good ==> Walking(d, fits, levels, cells[n := c], base, buf, listing, total, out, visited))
  {
    hide CellRest, CellSize, Chain, Rest, RestSize, Readable, NodeOf, Wf, Slots;
    var n := |cells| - 1;
    var top := cells[n];
    next := top.next;
    assert cells[n := top.(next := next)] == cells;
    while next < 256 && top.node.slots[next] == 0
      invariant top.next <= next <= 256 && forall i | top.next <= i < next :: top.node.slots[i] == 0
      invariant good ==> Walking(d, fits, levels, cells[n := top.(next := next)], base, buf, listing, total, out,
          visited)
    {
      if good {
        var c := top.(next := next);
        var cs := cells[n := c];
        TopFacts(d, fits, levels, cs, base, buf, listing, total, out, visited);
        NodeKind(levels[n].tree);
        SkipRest(d, levels[n].tree, levels[n].path, c);
        Moved(d, fits, levels, cs, base, buf, listing, total, out, visited, c.(next := next + 1), []);
        assert out + [] == out && cs[n := c.(next := next + 1)] == cells[n := top.(next := next + 1)];
      }
      next := next + 1;
    }
  }

  lemma Neutral(x: seq<Entry>)
    ensures x + [] == x == [] + x
  {}

  lemma ChainOne(d: Disk, fits: bool, l: Level, c: Cell, base: nat)
    requires LevelOk(d, fits, l, c, base) && c.next <= 256 && l.after == [] && l.more == 0
    ensures Chain(d, fits, [l], [c], base)
    ensures Rest([l], [c]) == CellRest(l.tree, l.path, c) && RestSize([l], [c]) == CellSize(l.tree, c)
  {
    hide LevelOk, Below, CellRest, CellSize;
    Neutral(CellRest(l.tree, l.path, c));
  }

  lemma WalkStart(d: Disk, fits: bool, w: Tree, prefix: Key, buf: Key, total: nat, visited: nat)
    requires Readable(d, w) && Wf(Strip(w), prefix) && (fits ==> Bounded(Strip(w), |prefix|, MAX_DEPTH - 1))
    requires visited + Size(Strip(w)) <= total + 1 && prefix <= buf
    ensures Walking(d, fits, [Level(w, prefix, [], 0)], [Cell(NodeOf(w), false, 0)], |prefix|, buf,
                    Entries(Strip(w), prefix), total, [], visited)
  {
    hide Entries, Size, Bounded, Readable, Wf, Strip, NodeOf, CellRest, CellSize, Chain, Rest, RestSize;
    FreshCell(w, prefix);
    var l, c := Level(w, prefix, [], 0), Cell(NodeOf(w), false, 0);
    ChainOne(d, fits, l, c, |prefix|);
    Neutral(CellRest(w, prefix, c));
    assert buf[..|prefix|] == prefix;
  }

  lemma Listed(d: Disk, fits: bool, levels: seq<Level>, cells: seq<Cell>, base: nat, buf: Key, listing: seq<Entry>,
      total: nat,
               out: seq<Entry>, visited: nat)
    requires Walking(d, fits, levels, cells, base, buf, listing, total, out, visited)
    ensures out <= listing && (|cells| == 0 ==> out == listing)
  {
    hide CellRest, CellSize, LevelOk;
  }

  /** Depth-first walk below the node reached after the prefix, one explicit stack frame per level. */
  method Walk(d: Disk, node: Node, prefix: Key, stop: Callback, visited0: nat, ghost w: Tree, ghost good: bool,
      ghost fits: bool,
      ghost total: nat)
    returns (st: ScanStatus, out: seq<Entry>)
    requires Decoded(d) && |prefix| <= MAX_DEPTH && visited0 <= BUDGET && (node.InnerNode? ==> |node.slots| == 256)
    requires good ==> node == NodeOf(w) && Readable(d, w) && Wf(Strip(w), prefix)
    requires good ==> (fits ==> Bounded(Strip(w), |prefix|, MAX_DEPTH - 1)) && visited0 + Size(Strip(w)) <= total + 1
    ensures good ==> out <= Entries(Strip(w), prefix) && (st.Done? ==> out == Entries(Strip(w), prefix))
    ensures good && fits && total <= BUDGET ==> st.Done? || st.Stopped?
    ensures !st.TooLong? && Delivered(stop, st, out)
  {
    hide CellRest, CellSize, Chain, Rest, RestSize, Readable, NodeOf, Wf, Slots, Walking, Entries, Size, Bounded, Strip,
        ReadNode, Going;
    assert Going(stop, []) by { NoneDelivered(stop); }
    var buf := new Byte[MAX_DEPTH + 1](_ => 0);
    forall i | 0 <= i < |prefix| { buf[i] := prefix[i]; }
    var cells, visited := [Cell(node, false, 0)], visited0;
    out := [];
    ghost var levels := [Level(w, prefix, [], 0)];
    ghost var listing := Entries(Strip(w), prefix);
    assert buf[..][..|prefix|] == prefix;
    if good { WalkStart(d, fits, w, prefix, buf[..], total, visited); }
    while |cells| > 0
      invariant CellsOk(cells) && |prefix| + |cells| <= MAX_DEPTH + 1 && visited <= BUDGET
      invariant buf[..|prefix|] == prefix
      invariant good ==> Walking(d, fits, levels, cells, |prefix|, buf[..], listing, total, out, visited)
      invariant Going(stop, out)
      decreases BUDGET - visited, |cells|
    {
      ghost var out0 := out;
      if good { Listed(d, fits, levels, cells, |prefix|, buf[..], listing, total, out, visited); }
      var n := |cells| - 1;
      if cells[n].node.LeafNode? {
        var k, v := cells[n].node.key, cells[n].node.val;
        if good { PopLeaf(d, fits, levels, cells, buf[..], listing, total, out, visited, prefix);
            levels := levels[..n]; }
        if prefix <= k {
          out := out + [(k, v)];
          DeliveredOne(stop, out0, out);
          if good { Listed(d, fits, levels, cells[..n], |prefix|, buf[..], listing, total, out, visited); }
          if stop(out) { st := Stopped; return; }
        }
        cells := cells[..n];
      } else {
        var go;
        go, st, cells, out, visited, levels := Visit(d, prefix, stop, cells, buf, out, visited, good, fits, levels,
            listing, total);
        if !go { return; }
      }
    }
    if good { Listed(d, fits, levels, cells, |prefix|, buf[..], listing, total, out, visited); }
    st := Done;
  }

  lemma PopLeaf(d: Disk, fits: bool, levels: seq<Level>, cells: seq<Cell>, buf: Key, listing: seq<Entry>, total: nat,
                out: seq<Entry>, visited: nat, prefix: Key)
    requires Walking(d, fits, levels, cells, |prefix|, buf, listing, total, out, visited) && |cells| > 0
        && prefix <= buf
    requires cells[|cells| - 1].node.LeafNode?
    ensures |levels| == |cells| && var n := |cells| - 1; var node := cells[n].node;
            && prefix <= node.key
            && Walking(d, fits, levels[..n], cells[..n], |prefix|, buf, listing, total, out + [(node.key, node.val)],
                visited)
  {
    hide CellRest, CellSize, Chain, Rest, RestSize, Readable, NodeOf, Wf, Slots, Walking;
    var n := |cells| - 1;
    TopFacts(d, fits, levels, cells, |prefix|, buf, listing, total, out, visited);
    NodeKind(levels[n].tree);
    assert prefix <= buf[..|prefix| + n];
    LeafRest(levels[n].tree, levels[n].path, cells[n], prefix);
    Popped(d, fits, levels, cells, |prefix|, buf, listing, total, out, visited,
        [(cells[n].node.key, cells[n].node.val)]);
  }

  /** One turn of the walk at an internal frame: list its value, then pop it or push its next child. */
  method Visit(d: Disk, prefix: Key, stop: Callback, cells0: seq<Cell>, buf: array<Byte>, out0: seq<Entry>,
      visited0: nat, ghost good: bool,
               ghost fits: bool, ghost levels0: seq<Level>, ghost listing: seq<Entry>, ghost total: nat)
    returns (go: bool, st: ScanStatus, cells: seq<Cell>, out: seq<Entry>, visited: nat, ghost levels: seq<Level>)
    requires Decoded(d) && |cells0| > 0 && CellsOk(cells0) && cells0[|cells0| - 1].node.InnerNode? && visited0 <= BUDGET
    requires buf.Length == MAX_DEPTH + 1 && |prefix| + |cells0| <= MAX_DEPTH + 1
    requires good ==> Walking(d, fits, levels0, cells0, |prefix|, buf[..], listing, total, out0, visited0)
    requires Going(stop, out0)
    modifies buf
    ensures buf[..|prefix|] == old(buf[..|prefix|])
    ensures go ==>
      && CellsOk(cells) && |prefix| + |cells| <= MAX_DEPTH + 1 && visited <= BUDGET
      && (visited == visited0 + 1 || (visited == visited0 && |cells| < |cells0|))
      && (good ==> Walking(d, fits, levels, cells, |prefix|, buf[..], listing, total, out, visited))
    ensures if go then Going(stop, out) else Delivered(stop, st, out)
    ensures !go ==>
        !st.Done? && !st.TooLong? && (good ==> out <= listing && (st.Stopped? || !(fits && total <= BUDGET)))
  {
    hide CellRest, CellSize, Chain, Rest, RestSize, Readable, NodeOf, Wf, Slots, Walking, ReadNode, Going;
    go, st, visited, levels := true, Done, visited0, levels0;
    var n, depth := |cells0| - 1, |prefix| + |cells0| - 1;
    out := EmitTerm(cells0, buf, |prefix|, out0, good, d, fits, levels0, listing, total, visited);
    cells := cells0[n := cells0[n].(emitted := true)];
    if |out| > |out0| {
      DeliveredOne(stop, out0, out);
      if good { Listed(d, fits, levels, cells, |prefix|, buf[..], listing, total, out, visited); }
      if stop(out) { return false, Stopped, cells, out, visited, levels; }
    }
    assert Going(stop, out) by { if |out| == |out0| { assert out == out0; } }
    var b := NextSlot(cells, buf[..], |prefix|, out, good, d, fits, levels0, listing, total, visited);
    cells := cells[n := cells[n].(next := b)];
    if good {
      TopFacts(d, fits, levels, cells, |prefix|, buf[..], listing, total, out, visited);
      NodeKind(levels[n].tree);
      Listed(d, fits, levels, cells, |prefix|, buf[..], listing, total, out, visited);
    }
    if b >= 256 {
      if good {
        DoneRest(levels[n].tree, levels[n].path, cells[n]);
        Popped(d, fits, levels, cells, |prefix|, buf[..], listing, total, out, visited, []);
        assert out + [] == out;
        levels := levels[..n];
      }
      cells := cells[..n];
      return;
    }
    if depth >= MAX_DEPTH { return false, OverDeep, cells, out, visited, levels; }
    if good { levels := Pushed(d, fits, levels, cells, |prefix|, buf[..], listing, total, out, visited); }
    if visited >= BUDGET { return false, OverBudget, cells, out, visited, levels; }
    visited := visited + 1;
    var kid := ReadNode(d, cells[n].node.slots[b]);
    if kid.None? { return false, Corrupt, cells, out, visited, levels; }
    ReadDecoded(d, cells[n].node.slots[b]);
    ghost var was := buf[..];
    buf[depth] := b;
    assert buf[..] == was[depth := b];
    assert buf[..|prefix|] == was[..|prefix|];
    cells := cells[n := cells[n].(next := b + 1)] + [Cell(kid.value, false, 0)];
  }

  lemma ReadDecoded(d: Disk, a: Addr)
    requires Decoded(d)
    ensures ReadNode(d, a).Some? && ReadNode(d, a).value.InnerNode? ==> |ReadNode(d, a).value.slots| == 256
  {}

  lemma NoneDelivered(stop: Callback)
    ensures Going(stop, [])
  {}

  /** sfs_trie_scan: descends the prefix, then lists the subtree to the callback. */
  method Scan(d: Disk, root: Addr, prefix: Key, stop: Callback, ghost t: Tree) returns (st: ScanStatus, out: seq<Entry>)
    requires Decoded(d)
    ensures Delivered(stop, st, out)
    ensures root == 0 ==> st.Done? && out == []
    ensures root != 0 ==> (st.TooLong? <==> |prefix| > MAX_DEPTH) && (st.TooLong? ==> out == [])
    ensures root != 0 && Holds(d, root, t) && !st.TooLong? ==>
      && out <= Matching(Strip(t), prefix, 0)
      && (st.Done? ==> out == Matching(Strip(t), prefix, 0))
      && (Size(Strip(t)) <= BUDGET && Bounded(Strip(t), 0, MAX_DEPTH - 1) ==> st.Done? || st.Stopped?)
  {
    hide Readable, NodeOf, Wf, Slots, Entries, Size, Bounded, Strip, ReadNode, Going;
    NoneDelivered(stop);
    out, st := [], Done;
    if root == 0 { return; }
    if |prefix| > MAX_DEPTH { st := TooLong; return; }
    ghost var good := Holds(d, root, t);
    ghost var fits := Bounded(Strip(t), 0, MAX_DEPTH - 1);
    ghost var w := t;
    var addr, depth, visited := root, 0, 0;
    while true
      invariant depth <= |prefix| && visited == depth
      invariant good ==> Reached(d, t, prefix, w, addr, depth)
      decreases |prefix| - depth
    {
      if visited >= BUDGET { st := OverBudget; return; }
      visited := visited + 1;
      var node := ReadNode(d, addr);
      if good { ReadsNode(d, w); NodeKind(w); }
      if node.None? { st := Corrupt; return; }
      ReadDecoded(d, addr);
      if node.value.LeafNode? {
        if good { MatchingLeaf(w, prefix, depth); }
        if prefix <= node.value.key {
          out := [(node.value.key, node.value.val)];
          DeliveredOne(stop, [], out);
          if stop(out) { st := Stopped; }
        }
        return;
      }
      if depth == |prefix| {
        if good { MatchingHere(w, prefix); assert prefix[..depth] == prefix; }
        st, out := Walk(d, node.value, prefix, stop, visited, w, good, fits, Size(Strip(t)));
        return;
      }
      var child := node.value.slots[prefix[depth]];
      if good { ReachedKid(d, t, prefix, w, addr, depth); }
      if child == 0 { return; }
      if good { w := w.kids[prefix[depth]]; }
      addr, depth := child, depth + 1;
    }
  }

  /** The prefix descent has not lost any match. */
  ghost predicate Reached(d: Disk, t: Tree, prefix: Key, w: Tree, addr: Addr, depth: nat) {
    && depth <= |prefix| && Readable(d, w) && w.addr == addr && Wf(Strip(w), prefix[..depth])
    && Matching(Strip(w), prefix, depth) == Matching(Strip(t), prefix, 0)
    && (Bounded(Strip(t), 0, MAX_DEPTH - 1) ==> Bounded(Strip(w), depth, MAX_DEPTH - 1))
    && depth + Size(Strip(w)) <= Size(Strip(t))
  }

  lemma ReachedKid(d: Disk, t: Tree, prefix: Key, w: Tree, addr: Addr, depth: nat)
    requires Reached(d, t, prefix, w, addr, depth) && w.PInner? && depth < |prefix|
    ensures var b := prefix[depth];
      if b in w.kids then Slots(w.kids)[b] != 0 && Reached(d, t, prefix, w.kids[b], Slots(w.kids)[b], depth + 1)
      else Slots(w.kids)[b] == 0 && Matching(Strip(t), prefix, 0) == []
  {
    var b := prefix[depth];
    KidReadable(d, w, b);
    if b in w.kids {
      assert prefix[..depth + 1] == prefix[..depth] + [b];
      SizeKid(Strip(w), b, 0);
    }
  }

  lemma {:induction false} SizeKid(t: Trie, b: Byte, i: nat)
    requires t.Inner? && b in t.kids && i <= b
    ensures Size(t.kids[b]) <= SizeFrom(t, i)
    decreases b - i
  {
    if i < b { SizeKid(t, b, i + 1); }
  }

  lemma MatchingLeaf(w: Tree, prefix: Key, depth: nat)
    requires w.PLeaf? && depth <= |prefix|
    ensures Matching(Strip(w), prefix, depth) == if prefix <= w.key then [(w.key, w.val)] else []
  {}

  lemma MatchingHere(w: Tree, prefix: Key)
    requires w.PInner?
    ensures Matching(Strip(w), prefix, |prefix|) == Entries(Strip(w), prefix)
  {}
}
