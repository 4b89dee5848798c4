/**
 A whole namespace commit (kernel/sfs_write.c:2075-2100 and 3292-3360): the
 snapshot of the pending operations becomes edits of the key catalog, the catalog
 is published, the snapshot is consumed.
 */
module NsCommit {
  import opened Base
  import N = Ns
  import V = Volume

  function Dels(r: seq<N.Item>): seq<V.Op> { seq(|r|, i requires 0 <= i < |r| => V.DelOp(V.Keys, r[i].key)) }

  function Puts(a: seq<N.Item>): seq<V.Op> { seq(|a|, i requires 0 <= i < |a| => V.PutOp(V.Keys, a[i].key, a[i].uuid)) }

  type Entries = imap<N.Key, N.Uuid>

  ghost function At(m: Entries, k: N.Key): Option<N.Uuid> { if k in m then Some(m[k]) else None }

  lemma {:induction false} DelsAt(m: Entries, r: seq<N.Item>, k: N.Key)
    ensures At(V.Applied(m, Dels(r), V.Keys), k) == if N.Has(r, k) then None else At(m, k)
    decreases |r|
  {
    if r != [] {
      var n := |r| - 1;
      assert Dels(r)[..n] == Dels(r[..n]);
      DelsAt(m, r[..n], k);
      if i :| 0 <= i < n && r[..n][i].key == k { assert r[i].key == k; }
      if i :| 0 <= i < |r| && r[i].key == k { if i < n { assert r[..n][i].key == k; } }
    }
  }

  /** Removals first, then additions: an added key ends with the last uuid listed for it. */
  lemma {:induction false} PutsAt(m: Entries, d: seq<V.Op>, a: seq<N.Item>, k: N.Key)
    requires N.Sorted(a)
    ensures forall u | N.Binds(a, k, u) :: At(V.Applied(m, d + Puts(a), V.Keys), k) == Some(u)
    ensures !N.Has(a, k) ==> At(V.Applied(m, d + Puts(a), V.Keys), k) == At(V.Applied(m, d, V.Keys), k)
    decreases |a|
  {
    if a == [] {
      assert d + Puts(a) == d;
    } else {
      var n := |a| - 1;
      var all := d + Puts(a);
      assert all[..|all| - 1] == d + Puts(a[..n]) && all[|all| - 1] == V.PutOp(V.Keys, a[n].key, a[n].uuid);
      PutsAt(m, d, a[..n], k);
      LastItem(a, k);
    }
  }

  lemma LastItem(a: seq<N.Item>, k: N.Key)
    requires a != [] && N.Sorted(a)
    ensures var n := |a| - 1;
            && N.Sorted(a[..n]) && (N.Has(a, k) <==> a[n].key == k || N.Has(a[..n], k))
            && forall u :: N.Binds(a, k, u) <==> if a[n].key == k then u == a[n].uuid else N.Binds(a[..n], k, u)
  {
    var n := |a| - 1;
    forall i | 0 <= i < n ensures a[i].key != a[n].key { LexIrreflexive(a[i].key); }
    forall u ensures N.Binds(a, k, u) <==> if a[n].key == k then u == a[n].uuid else N.Binds(a[..n], k, u) {
      if i :| 0 <= i < |a| && a[i] == N.Item(k, u) { if i < n { assert a[..n][i] == a[i]; } }
      if i :| 0 <= i < n && a[..n][i] == N.Item(k, u) { assert a[i] == N.Item(k, u); }
      if a[n].key == k && u == a[n].uuid { assert a[n] == N.Item(k, u); }
    }
    if i :| 0 <= i < |a| && a[i].key == k { if i < n { assert a[..n][i].key == k; } }
    if i :| 0 <= i < n && a[..n][i].key == k { assert a[i].key == k; }
  }

  lemma {:induction false} IdsApart(m: Entries, ops: seq<V.Op>)
    requires forall i | 0 <= i < |ops| :: ops[i].cat == V.Keys
    ensures V.Applied(m, ops, V.Ids) == m
    decreases |ops|
  {
    if ops != [] { IdsApart(m, ops[..|ops| - 1]); }
  }

  lemma AppliedAt(m: Entries, r: seq<N.Item>, a: seq<N.Item>)
    requires N.Wf(r, a)
    ensures forall k, s | N.MarkOf(r, a, k, s) :: At(V.Applied(m, Dels(r) + Puts(a), V.Keys), k) == N.Seen(s, At(m, k))
  {
    forall k, s | N.MarkOf(r, a, k, s) ensures At(V.Applied(m, Dels(r) + Puts(a), V.Keys), k) == N.Seen(s, At(m, k))
    {
      DelsAt(m, r, k);
      PutsAt(m, Dels(r), a, k);
      N.HasBinds(a, k);
    }
  }

  /** Publishing the edits of a snapshot turns the catalog into what the snapshot says. */
  lemma SnapshotApplied(m: Entries, r: seq<N.Item>, a: seq<N.Item>)
    requires N.Wf(r, a)
    ensures N.Applies(k => At(m, k), r, a, k => At(V.Applied(m, Dels(r) + Puts(a), V.Keys), k))
  {
    AppliedAt(m, r, a);
  }

  /** Pairs enough for the edits of a snapshot. */
  ghost function Pairs(items: seq<N.Item>): nat {
    if items == [] then 0 else Pairs(items[..|items| - 1]) + |items[|items| - 1].key| + 2
  }

  lemma {:induction false} PairsOf(d: seq<V.Op>, a: seq<N.Item>)
    ensures V.Pairs(d + Puts(a)) == V.Pairs(d) + Pairs(a)
    decreases |a|
  {
    if a == [] {
      assert d + Puts(a) == d;
    } else {
      var n, all := |a| - 1, d + Puts(a);
      assert all[..|all| - 1] == d + Puts(a[..n]) && all[|all| - 1].key == a[n].key;
      PairsOf(d, a[..n]);
    }
  }

  lemma {:induction false} PairsDel(r: seq<N.Item>)
    ensures V.Pairs(Dels(r)) == Pairs(r)
    decreases |r|
  {
    if r != [] {
      assert Dels(r)[..|r| - 1] == Dels(r[..|r| - 1]);
      PairsDel(r[..|r| - 1]);
    }
  }

  /** Every key removed or added, and every uuid added, is within the catalog's limits. */
  ghost predicate Within(r: seq<N.Item>, a: seq<N.Item>) {
    && (forall i | 0 <= i < |r| :: |r[i].key| <= 1024)
    && forall i | 0 <= i < |a| :: |a[i].key| <= 1024 && |a[i].uuid| <= 16
  }

  lemma WithinFits(r: seq<N.Item>, a: seq<N.Item>)
    ensures Within(r, a) <==> forall i | 0 <= i < |Dels(r) + Puts(a)| :: V.Sized((Dels(r) + Puts(a))[i])
  {
    var ops := Dels(r) + Puts(a);
    if forall i | 0 <= i < |ops| :: V.Sized(ops[i]) {
      forall i | 0 <= i < |r| ensures |r[i].key| <= 1024 { assert V.Sized(ops[i]); }
      forall i | 0 <= i < |a| ensures |a[i].key| <= 1024 && |a[i].uuid| <= 16 { assert V.Sized(ops[|r| + i]); }
    }
  }

  /** The catalog commit of a snapshot: exactly its keys change, or nothing. */
  method Rebuild(v: V.Volume, sr: seq<N.Item>, sa: seq<N.Item>, fault: V.Fault, c0: Option<V.Header>,
      c1: Option<V.Header>)
    returns (end: V.Ended)
    requires v.Idle() && v.book.SlotImages(c0, c1) && N.Wf(sr, sa)
    modifies v, v.io, v.io.fa
    ensures v.Idle() && (!end.Done? ==> v.book.pub == old(v.book.pub))
    ensures fault.Never? && Within(sr, sa) ==>
              old(v.io.fa.cap - v.io.fa.frontier) >= 8192 * (Pairs(sr) + Pairs(sa)) ==> end.Done?
    ensures end.Faulted? ==> !fault.Never?
    ensures end.Done? ==> fault.Never? && Within(sr, sa)
    ensures end.Done? ==> V.Bindings(v.book.pub.ids) == V.Bindings(old(v.book.pub.ids))
    ensures end.Done? ==> var before, after := V.Bindings(old(v.book.pub.keys)), V.Bindings(v.book.pub.keys);
                          N.Applies(k => At(before, k), sr, sa, k => At(after, k))
  {
    hide V.Volume.Idle, N.Applies, V.Bindings, V.Applied, V.Ledger.SlotImages, N.Wf;
    ghost var was := v.book.pub;
    var ops := Dels(sr) + Puts(sa);
    end := v.Commit(ops, fault, c0, c1);
    WithinFits(sr, sa);
    PairsOf(Dels(sr), sa);
    PairsDel(sr);
    SnapshotApplied(V.Bindings(was.keys), sr, sa);
    IdsApart(V.Bindings(was.ids), ops);
  }

  /**
   Snapshot, catalog commit and consume, with operations going on before and after
   the flip.  On success no lookup changes between the moment before the flip's
   consume and the moment after; on failure the published catalogs are untouched and
   the overlay still holds everything.
   */
  method Publish(v: V.Volume, ns: N.Ns, during: seq<N.Op>, late: seq<N.Op>, fault: V.Fault, c0: Option<V.Header>,
      c1: Option<V.Header>)
    returns (end: V.Ended, ghost r: seq<N.Item>, ghost a: seq<N.Item>)
    requires v.Idle() && ns.Valid() && v.book.SlotImages(c0, c1)
    modifies v, v.io, v.io.fa, ns
    ensures v.Idle() && ns.Valid() && N.Wf(r, a)
    ensures fault.Never? && Within(old(ns.removed), old(ns.added)) ==>
              old(v.io.fa.cap - v.io.fa.frontier) >= 8192 * (Pairs(old(ns.removed)) + Pairs(old(ns.added))) ==>
                  end.Done?
    ensures end.Done? ==> fault.Never? && Within(old(ns.removed), old(ns.added))
    ensures forall k, s | N.MarkOf(old(ns.removed), old(ns.added), k, s) ::
        N.MarkOf(r, a, k, N.Later(N.Later(s, during, k), late, k))
    ensures end.Done? ==> V.Bindings(v.book.pub.ids) == V.Bindings(old(v.book.pub.ids))
    ensures end.Done? ==> forall k, s | N.MarkOf(old(ns.removed), old(ns.added), k, s) ::
              At(V.Bindings(v.book.pub.keys), k) == N.Seen(s, At(V.Bindings(old(v.book.pub.keys)), k))
    ensures end.Done? ==>
        forall k, m, s | N.MarkOf(r, a, k, m) && N.MarkOf(old(ns.removed), old(ns.added), k, s) ::
          ns.Says(k, N.Consumed(m, s))
    ensures end.Done? ==> forall k, m, n | N.MarkOf(r, a, k, m) && ns.Says(k, n) ::
              N.Seen(n, At(V.Bindings(v.book.pub.keys), k)) == N.Seen(m, At(V.Bindings(old(v.book.pub.keys)), k))
    ensures !end.Done? ==> v.book.pub == old(v.book.pub) && ns.removed == r && ns.added == a
  {
    hide V.Volume.Idle, V.Bindings, V.Ledger.SlotImages, N.Wf, N.Follows, N.MarkOf, N.Seen;
    ghost var before := V.Bindings(v.book.pub.keys);
    var sr, sa := ns.Snapshot();
    N.Interleave(ns, during, sr, sa);
    end := Rebuild(v, sr, sa, fault, c0, c1);
    N.Interleave(ns, late, sr, sa);
    r, a := ns.removed, ns.added;
    if !end.Done? { return; }
    ghost var after := V.Bindings(v.book.pub.keys);
    N.Close(ns, sr, sa, k => At(before, k), k => At(after, k));
  }
}
