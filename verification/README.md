# sfs storage core: a Dafny model

This project models the portable storage core of the sfs kernel file system and
proves what it promises: the path-copying catalog tries and their in-memory
builder, the block allocator, the double header, in-place overwrites with undo
images, the fold and re-chunk of file content, the write-ahead log overlay, the
pending namespace, eviction, defragmentation, the record codec with its signing
payload, and the Ed25519 field and digit recoding.

The modules follow the source files:

- `Trie`, `TrieDisk`, `TrieList`, `TrieReader`: the catalog trie as a value, on the
  device and as the reader sees it.
- `Extents`, `Falloc`: extent lists and the allocator over them.
- `NodeStore`, `CatCow`, `CatRemove`, `Volume`: node pairs, the copy-on-write
  editor, and the commit protocol with every crash point.
- `Builder`, `Layout`: the linked in-memory tree, its layout, and both writers compared.
- `Undo`, `ContentIo`, `VersionVector`, `Fold`, `Rechunk`, `Commits`: one unit's commit,
  crash by crash, and sequences of commits.
- `Wal`, `WalLog`: the overlay, its checkpoint and the log that feeds it.
- `Ns`, `NsCommit`: the pending namespace and its commit.
- `Evict`, `Defrag`, `Relocate`: maintenance passes.
- `Codec`, `CodecLayout`: records and signing payloads, and where their fields lie.
- `Field`, `FieldBytes`, `Recode`: Ed25519 arithmetic (section 5.1 of RFC 8032).

State that the source updates in place is a class with `modifies` clauses; each
method is tied to a value-level description (`State`, `Space`, `Dev`, `Goal`, ...)
about which the lemmas are proved. A crash image is any device in which each write
since the last barrier has happened or not, and a block that overlaps a lost or torn
write holds nothing decodable. Sealing and opening are an inverse pair keyed by unit,
fragment and dot; the checksum is an arbitrary function passed as a parameter.

Some promises turned out to hold only under a condition. The condition is proved to
be exact, and a concrete failing input is given:

- Folding at the stream's own fragment size keeps whole old fragments, so bytes past
  the fold minimum inside the cut fragment come back unless that fragment is clean or
  staged (`Fold.FoldMeaning`, failing at `Fold.StaleBytes`). The same condition decides
  whether a checkpoint agrees with its overlay (`Wal.Checkpoint`).
- Rollback applies images in ascending tail order, so a slot ends with its
  highest-addressed image. A second image of a slot that holds other than the
  committed bytes is harmless exactly when it lies below a durable first one
  (`Undo.ImageKeepsIff`), and a whole run can be undone at every point exactly when all
  its steps are fair in this sense (`Undo.RunUndoableIff`). First fit in the tail may
  put the second image above (failing at `Undo.RepeatAboveLoses`).
- Dots are 48 bits of counter, so a fragment is sealed twice under one dot exactly when
  one writer's commits are a multiple of 2^48 apart (`Commits.SealsRepeatIff`, failing
  at `Commits.WrapRepeats`).
- The counter is drawn from the published head, so an attempt that fails and its repeat
  seal under the same dot (`Commits.RetryShares`), exactly then and at the wrap
  (`VersionVector.AttemptsShareIff`, failing at `Commits.RetryRepeats`);
  `kernel/sfs_cow.c:770-775` says a dot is never reused.

A commit whose header was issued and whose second barrier then failed is reported as
failed, but its header may have reached the device. Until the next commit succeeds a
crash may therefore reopen at it, with all of its edits (`Volume.CrashAtomic`,
`Volume.Volume.Commit`); before the header is issued a failed commit leaves no trace.

The bulk builder and the copy-on-write editor differ on one map only: with no entries the
builder writes an empty root node, copy-on-write leaves root address 0
(`Layout.WritersAgree`).

Where code and comments differ the model follows the code: `kernel/sfs_defrag.h:9-24`
says that unlinked units are not walked and signed records are skipped, while
`kernel/sfs_defrag.c:229-248` and `kernel/sfs_defrag.c:333-344` account for every unit
of the id catalog and move signed records.

## Model

| member | source | states |
|---|---|---|
| `Trie.PutIsMapUpdate` | kernel/sfs_catcow.c:295-412 | For every well-formed root and every key, lookup after put is map update at that key and unchanged elsewhere; the result is well formed. |
| `Trie.BranchLookup` | kernel/sfs_catcow.c:219-291 | The subtree that replaces a leaf answers exactly the two keys it was built from, for every probe key. |
| `Trie.RemoveIsMapDelete` | kernel/sfs_catcow.c:463-586 | Lookup after remove is map deletion for every key; removing an absent key returns the very same root. |
| `Trie.RebuildLookup` | kernel/sfs_catcow.c:425-461 | Pruning an empty node, pulling a lone leaf up or keeping the node never changes a lookup. |
| `Trie.PrunedIff` | kernel/sfs_catcow.c:425-461 | A subtree is pruned if and only if it is a bare chain ending in the removed key. |
| `Trie.RemovalShape` | kernel/sfs_catcow.c:425-565 | Removal replaces one node of the path and no other, the lowest that holds more than the key: it keeps its value and its other children, or is pulled up to its one remaining leaf. |
| `Trie.JointOf` | kernel/sfs_catcow.c:463-586 | Every key that is present is all the tree holds, or has such a node on its path. |
| `Trie.RootShape` | kernel/sfs_catcow.c:566-577 | A root that held nothing else becomes an empty internal node. |
| `Trie.CanonicalUnique` | kernel/sfs_catcow.c:295-412 | Two tries in put-only shape that answer every key alike are the same tree. |
| `Trie.HistoryIndependence` | kernel/sfs_catcow.c:295-412 | Two put-only histories with the same final map leave the same tree, whatever their order and repetitions. |
| `Trie.PutOnlyShape` | kernel/sfs_catcow.c:219-291 | After any put-only history the node at a path is internal if and only if the path is the root or at least two keys extend it. |
| `Base.LexTotal` | kernel/sfs_ns.c:25-34 | The byte order on keys is total. |
| `Base.LexTransitive` | kernel/sfs_ns.c:25-34 | The byte order on keys is transitive. |
| `TrieDisk.OneCopySuffices` | kernel/sfs_trie.c:113-128 | If at most one copy of each node pair is lost, the reader still sees the whole tree. |
| `TrieDisk.ReadableUnique` | kernel/sfs_trie.c:113-128 | A root address decodes to at most one tree. |
| `TrieDisk.StoredFrame` | kernel/sfs_catcow.c:167-206 | A stored tree depends on nothing but the block pairs of its own nodes. |
| `TrieDisk.KidNodesPut` | kernel/sfs_catcow.c:349-403 | Replacing one child swaps exactly that child's node multiset. |
| `TrieReader.Find` | kernel/sfs_trie.c:172-251 | Lookup on any device terminates; over a readable tree it returns exactly the map's answer, and fails only past the depth cap. |
| `TrieReader.Scan` | kernel/sfs_trie.c:275-435 | On any device the scan ends; on a readable trie the callback is given the matching bindings in order, up to the first at which it says stop, and all of them otherwise if the trie is within budget and depth. |
| `TrieReader.Walk` | kernel/sfs_trie.c:358-428 | The explicit frame stack lists exactly what remains of the subtree, node by node, within the budget, until the callback says stop. |
| `TrieReader.NextSlot` | kernel/sfs_trie.c:390-393 | The next occupied slot at or after the cursor, or 256; every slot skipped is empty. |
| `TrieList.MatchingExact` | kernel/sfs_trie.c:275-435 | The listing of a prefix contains a pair if and only if the key extends the prefix and is bound to that value. |
| `TrieList.MatchingAscend` | kernel/sfs_trie.c:275-435 | The listing is strictly ascending by key bytes, so no key occurs twice. |
| `TrieList.EntriesExact` | kernel/sfs_trie.c:358-428 | A whole-subtree listing contains exactly the bindings below it. |
| `TrieList.EntriesAscend` | kernel/sfs_trie.c:358-428 | A whole-subtree listing is strictly ascending and stays below its path. |
| `TrieList.PutBounded` | kernel/sfs_catcow.c:295-412 | Put keeps every node within a depth bound that the key respects. |
| `TrieList.RemoveBounded` | kernel/sfs_catcow.c:463-586 | Remove never deepens a tree. |
| `Extents.LowerBound` | kernel/sfs_falloc.c:37-50 | Binary search returns the first extent whose end reaches the address. |
| `Extents.Insert` | kernel/sfs_falloc.c:77-110 | Coalescing insert keeps the list sorted, disjoint and never touching, and covers exactly the union. |
| `Extents.Take` | kernel/sfs_falloc.c:112-137 | Succeeds if and only if some extent fits, takes the lowest such address and removes exactly those bytes. |
| `Extents.RemoveRange` | kernel/sfs_falloc.c:139-170 | Cutting a range out, splitting where needed, leaves exactly the difference in canonical form. |
| `Extents.InsertAll` | kernel/sfs_falloc.c:328-368 | Merging one list into another gives the union in canonical form. |
| `Extents.CanonicalUnique` | kernel/sfs_falloc.c:77-110 | A canonical extent list is determined by the set of bytes it covers. |
| `Falloc.AllocKeeps` | kernel/sfs_falloc.c:225-277 | An allocation never overlaps anything owned and keeps the partition, deferral, packing and discard invariants. |
| `Falloc.FreeKeeps` | kernel/sfs_falloc.c:291-295 | A direct free keeps all invariants; one that touches the open pack block closes it. |
| `Falloc.RetireKeeps` | kernel/sfs_falloc.c:303-317 | Retiring a node pair, freed at once above the floor and parked below it, keeps all invariants. |
| `Falloc.RetireBlockKeeps` | kernel/sfs_falloc.c:319-326 | A parked content block stays owned until the flip. |
| `Falloc.PublishKeeps` | kernel/sfs_falloc.c:328-368 | Releasing the deferred frees and ageing the discard sets keeps all invariants for the new active and loser roots. |
| `Falloc.PackKeeps` | kernel/sfs_falloc.c:240-262 | Packed sub-slots never overlap each other or anything else in use. |
| `Falloc.NextKeeps` | kernel/sfs_falloc.c:216-420 | Every allocator step keeps the full invariant. |
| `Falloc.RunKeeps` | kernel/sfs_falloc.c:181-420 | In every state of every run the owned bytes, the three free lists and the gap partition the device, and a discardable byte is neither owned nor referenced by either header slot. |
| `Falloc.HandOver` | kernel/sfs_falloc.c:393-420 | Handing one aged extent to the discard callback moves exactly its bytes. |
| `Falloc.Falloc.constructor` | kernel/sfs_falloc.c:181-187 | A fresh allocator owns everything outside the gap and has empty lists. |
| `Falloc.Falloc.Undiscard` | kernel/sfs_falloc.c:202-206 | Allocated space leaves both discard sets. |
| `Falloc.Falloc.Alloc` | kernel/sfs_falloc.c:225-238 | First fit by lowest address, else the frontier moves; zero if and only if neither is possible, and then nothing changed. |
| `Falloc.Falloc.AllocPacked` | kernel/sfs_falloc.c:240-262 | The next sub-slot of the open block exactly when it has room, else the first of a fresh block, lowest fit first; zero if and only if the open block has no room and no fresh block is to be had; nothing in use is touched. |
| `Falloc.Falloc.AllocTail` | kernel/sfs_falloc.c:264-277 | First fit in the tail, else the tail grows down, never past the frontier; zero if and only if neither is possible. |
| `Falloc.Falloc.Peek` | kernel/sfs_falloc.c:279-289 | The lowest fitting address without taking it, zero if none. |
| `Falloc.Falloc.Free` | kernel/sfs_falloc.c:291-295 | The bytes move from owned to the region's list. |
| `Falloc.Falloc.Begin` | kernel/sfs_falloc.c:297-301 | The reclaim floor is the frontier, never raised by a nested begin. |
| `Falloc.Falloc.RetireNode` | kernel/sfs_falloc.c:303-317 | No effect outside a scope; at or above the floor the pair is free at once, below it waits. |
| `Falloc.Falloc.RetireBlock` | kernel/sfs_falloc.c:319-326 | The block joins the deferred live list and stays owned. |
| `Falloc.Falloc.Publish` | kernel/sfs_falloc.c:328-368 | Deferred frees are released, candidates of earlier publishes become discardable, new ones become candidates; the open pack block closes exactly when part of it is released. |
| `Falloc.Falloc.Abort` | kernel/sfs_falloc.c:370-376 | Deferred frees are forgotten, so the published root stays allocated. |
| `Falloc.Falloc.NoteFreed` | kernel/sfs_falloc.c:388-391 | A noted extent becomes a discard candidate. |
| `Falloc.Falloc.TakeDiscardable` | kernel/sfs_falloc.c:393-420 | Exactly the wanted aged extents inside the window are handed out, in order, each dropped only after the callback succeeded. |
| `NodeStore.NodeStore.AllocPair` | kernel/sfs_write.c:653-657 | A pair apart from every pair that may still be read, zero only with less than 8192 bytes between frontier and tail. |
| `NodeStore.NodeStore.WritePair` | kernel/sfs_catcow.c:167-194 | Both copies of one fresh pair hold the node; every held pair reads as before; zero means nothing was written. |
| `NodeStore.NodeStore.Emit` | kernel/sfs_write.c:659-663 | A block write outside every held pair keeps the published nodes untouched. |
| `NodeStore.NodeStore.Retire` | kernel/sfs_catcow.c:208-213 | A pair is freed at once above the reclaim floor and parked below it. |
| `NodeStore.HoldPublish` | kernel/sfs_falloc.c:328-368 | After the flip the parked pairs are free and everything else is still held. |
| `NodeStore.HoldAbort` | kernel/sfs_falloc.c:370-376 | After an aborted scope every held pair is still held. |
| `CatCow.BranchLeaf` | kernel/sfs_catcow.c:219-291 | The fresh subtree consists of exactly the pairs written and strips to the branch of the two keys; it fails only with less than one pair left, after at most the pairs it would need. |
| `CatCow.Descend` | kernel/sfs_catcow.c:319-391 | The descent loop stops at a leaf, at the end of the key or at an empty slot, with the frames of the whole spine. |
| `CatCow.PutUnwind` | kernel/sfs_catcow.c:393-412 | Rewriting the spine upwards repoints every ancestor and accounts for every old and new pair. |
| `CatCow.CowPut` | kernel/sfs_catcow.c:295-412 | The new root stores exactly the updated trie; old nodes plus written pairs equal new nodes plus retired ones; at most key length plus two pairs are written; everything else held is unchanged; both argument errors are exact and change nothing; out of space is possible only when less than key length plus two pairs lie between frontier and tail. |
| `CatRemove.IsEmpty` | kernel/sfs_catcow.c:101-111 | True exactly for a node with no value and no child. |
| `CatRemove.LoneChild` | kernel/sfs_catcow.c:113-128 | The only occupied slot of a node without a value, or none. |
| `CatRemove.RebuildNode` | kernel/sfs_catcow.c:425-461 | The node left by a removal is pruned, collapsed to its lone leaf or rewritten exactly as the trie says, with at most one pair written. |
| `CatRemove.RemoveUnwind` | kernel/sfs_catcow.c:543-577 | The upward loop rebuilds or repoints every ancestor and loses at most one leaf pair. |
| `CatRemove.CowRemove` | kernel/sfs_catcow.c:463-586 | The new root stores exactly the reduced trie; an absent key writes and retires nothing; at most one leaf pair is orphaned; at most key length plus one pairs are written; out of space is possible only for a present key, when less than key length plus one pairs lie between frontier and tail. |
| `Volume.FlipAtomic` | kernel/sfs_header.c:139-193 | Writing the inactive slot, torn or whole, never makes anything active but the old or the new header. |
| `Volume.ActiveHighest` | kernel/sfs_header.c:139-193 | The active header is the valid slot with the highest number, the first slot on equal numbers, none only if neither is valid. |
| `Volume.PutBindings` | kernel/sfs_catcow.c:295-412 | The stored map after put is the old one updated. |
| `Volume.RemoveBindings` | kernel/sfs_catcow.c:463-586 | The stored map after remove is the old one without the key. |
| `Volume.CrashAtomic` | kernel/sfs_write.c:3059-3105 | Whatever subset of the writes since the last barrier a crash leaves, those of failed scopes included, reopening finds both catalogs of one commit: the published one, or one whose header was issued since the last success. |
| `Volume.FlushSound` | kernel/sfs_write.c:3066-3080 | After the first barrier an earlier header in flight has landed, is torn or never arrived, and whichever the slots show is whole. |
| `Volume.SettleSound` | kernel/sfs_write.c:3087-3104 | Once the second barrier is through, the new header wins both slots and every earlier attempt is history. |
| `Volume.AbortSound` | kernel/sfs_write.c:3393-3441 | A scope that fails before or after issuing its header leaves the published catalogs, those the device names and those in flight whole and allocated. |
| `Volume.Volume.constructor` | kernel/sfs_header.c:139-193 | A mounted volume whose active header names two stored catalogs is idle. |
| `Volume.Volume.Begin` | kernel/sfs_write.c:3272-3291 | A scope opens on the published catalogs without a barrier: what an earlier scope left in flight stays in flight. |
| `Volume.Volume.Put` | kernel/sfs_catcow.c:295-412 | The working map of one catalog is updated; the other catalog, the published state and everything in flight are untouched; both argument errors are exact, and running out of space needs less than key length plus two pairs of free gap. |
| `Volume.Volume.Remove` | kernel/sfs_catcow.c:463-586 | The working map of one catalog loses the key; the other catalog, the published state and everything in flight are untouched; a key over 1024 bytes is refused exactly, and running out of space needs less than key length plus two pairs of free gap. |
| `Volume.Volume.Flush` | kernel/sfs_write.c:3059-3105 | After the first barrier no node write is in flight and an earlier header is decided, as the slots are read back. |
| `Volume.Volume.IssueHeader` | kernel/sfs_write.c:2848-2884 | The next header, numbered after the one the device shows, goes to the slot that is not active. |
| `Volume.Volume.Settle` | kernel/sfs_write.c:3059-3105 | After the second barrier the new catalogs are the published ones and nothing is in flight. |
| `Volume.Volume.Abort` | kernel/sfs_write.c:3393-3441 | A failed commit falls back to exactly the published catalogs, whether or not its header was issued. |
| `Volume.Volume.Commit` | kernel/sfs_write.c:3274-3345 | A list of edits is applied to both maps and published as a whole. With no fault, keys of at most 1024 and values of at most 16 bytes, and 8192 bytes of gap for each of key length plus two pairs per edit, it succeeds; a fault result needs a fault, and each refusal names an edit over its limit or a gap too small. Refused, or with a failing barrier, slot read or header write, the published catalogs stay; only a failure after the header was issued leaves one more attempt a crash may find, and that one has all the edits. |
| `Volume.LastDecides` | kernel/sfs_write.c:2075-2100 | After a list of edits a key is bound by the last edit of it in its catalog, and only if that is a put. |
| `Volume.UntouchedStays` | kernel/sfs_write.c:2075-2100 | A key no edit names in a catalog keeps its binding. |
| `Builder.BranchLeaf` | kernel/sfs_catalog.c:86-158 | The new linked subtree is on fresh nodes and is the branch of the two keys. |
| `Builder.Edit` | kernel/sfs_catalog.c:170-222 | Changing the focused node in place makes its subtree the put of what it was. |
| `Builder.PutKey` | kernel/sfs_catalog.c:164-224 | The heap afterwards holds exactly the put of the trie it held, as a tree without sharing; a key over the limit changes nothing. |
| `Builder.SwapRep` | kernel/sfs_catalog.c:164-224 | A change confined to one node is a change of the whole tree at that path. |
| `Builder.New` | kernel/sfs_catalog.c:75-78 | A new builder holds the empty trie. |
| `Builder.Build` | kernel/sfs_catalog.c:164-224 | A list of puts leaves the trie of that put-only history, the empty root for an empty list. |
| `Layout.LayOut` | kernel/sfs_catalog.c:276-310 | On success the device holds exactly the built trie, on pairs nobody held before, and nothing else changed; it fails only if the gap holds less than one pair per node of the trie. |
| `Layout.BuildOut` | kernel/sfs_catalog.c:312-316 | Building in memory and writing out stores the trie of the put-only history, an empty root node for an empty one; it succeeds whenever the gap holds one pair per node of that trie. |
| `Layout.CowOut` | kernel/sfs_catcow.c:295-412 | The same history through copy-on-write puts stores the same trie; it succeeds whenever the gap holds key length plus two pairs per entry. |
| `Layout.WritersAgree` | kernel/sfs_catalog.c:86-224 | Two histories with the same final map leave isomorphic trees, whichever of the two writers each used; for the empty map the builder leaves an empty root node and copy-on-write none. |
| `Undo.LastWins` | kernel/sfs_write.c:899-960 | After rollback a slot holds what its highest-addressed applicable image holds. |
| `Undo.RestoredIff` | kernel/sfs_write.c:899-960 | On any device, every crash followed by rollback returns a slot to its committed bytes if and only if, before the crash, the slot is intact with no wrong image possible, or a durable right image lies above every wrong one. |
| `Undo.UnsafeLoses` | kernel/sfs_write.c:899-960 | On any other device some crash and its rollback end with other bytes; the crash is constructed. |
| `Undo.ImageKeepsIff` | kernel/sfs_cow.c:511-588 | After one more undo image of a committed slot, every crash still restores it if and only if the image holds the committed bytes or lies below a durable one that does. |
| `Undo.WriteSafeIff` | kernel/sfs_cow.c:239-265 | A write to vacant space keeps a slot safe if and only if it is not a wrong image of it above every durable right one. |
| `Undo.OverwriteSafeIff` | kernel/sfs_cow.c:70-96 | Overwriting a slot keeps it safe if and only if a right image of it is durable; other slots do not notice. |
| `Undo.BarrierSafe` | kernel/sfs_cow.c:70-96 | A barrier keeps every slot safe. |
| `Undo.PublishSafe` | kernel/sfs_write.c:3059-3105 | After the flip every image is history and the new slots are the committed ones. |
| `Undo.CrashSafe` | kernel/sfs_write.c:899-960 | What a crash leaves of a safe device is safe, before, during and after rolling back. |
| `Undo.RollbackFair` | kernel/sfs_write.c:899-960 | Rolling back is a fair run of one overwrite per image and a barrier, and ends with the whole rollback durable. |
| `Undo.RecoveryUndoable` | kernel/sfs_write.c:899-960 | After any crash of an undoable state, a further crash anywhere inside the rollback loses nothing either, and a completed rollback leaves every committed slot intact. |
| `Undo.StepSafeIff` | kernel/sfs_cow.c:1434-1552 | From a safe state any step leads to a safe state if and only if it is fair. |
| `Undo.RunUndoableIff` | kernel/sfs_cow.c:1434-1552 | In every run of writes, barriers, overwrites, publishes, crashes and rollbacks: no crash at any point loses a committed slot if and only if every step was fair. |
| `Undo.RepeatAboveLoses` | kernel/sfs_write.c:899-960 | A run whose two images of one slot lie where first fit in the tail puts them: the repeat is the higher, and some crash of the run ends with half-new bytes. |
| `Undo.RollbackIdempotent` | kernel/sfs_write.c:899-960 | A second rollback of the rolled-back device changes nothing more. |
| `ContentIo.ContentIo.Place` | kernel/sfs_cow.c:239-265 | A packed slot or whole blocks at an address nothing has; the write is logged as one fair event; zero only when the gap is below the length plus one block. |
| `ContentIo.ContentIo.Evict` | kernel/sfs_cow.c:511-588 | The ciphertext is copied verbatim to the tail, as history or as the undo image of its slot; the logged event is fair for history, for a first image and for one below the first; zero only when the gap is below the image length plus one block. |
| `ContentIo.ContentIo.FlushApply` | kernel/sfs_cow.c:70-96 | One barrier, then all deferred overwrites, each logged as a fair event of the run. |
| `ContentIo.ContentIo.ScopeUndoableIff` | kernel/sfs_cow.c:70-96 | The logged scope is a run, and a crash at any of its points can be undone if and only if every logged event was fair. |
| `VersionVector.Bump` | kernel/sfs_cow.c:439-483 | The writer's 64-bit counter goes up by one modulo 2^64, every other counter is kept, order and uniqueness hold. |
| `VersionVector.DotEqualIff` | kernel/sfs_cow.c:1221-1244 | Two dots are equal if and only if the writers are and the counters agree modulo 2^48. |
| `VersionVector.DotsRepeatIff` | kernel/sfs_cow.c:824-847 | Two commits of a chain use one dot if and only if one writer made both, a multiple of 2^48 commits apart. |
| `VersionVector.AttemptsShareIff` | kernel/sfs_cow.c:824-847 | Attempts from two versions of a chain use one dot if and only if one writer made both and published a multiple of 2^48 commits in between, none included. |
| `Commits.HistoryChain` | kernel/sfs_cow.c:1221-1244 | The records of a sequence of commits carry a chain of version vectors, each commit at its own counter. |
| `Commits.SealsRepeatIff` | kernel/sfs_cow.c:1221-1244 | Along a sequence of commits a fragment is sealed twice under one dot if and only if one writer made both, a multiple of 2^48 commits apart. |
| `Commits.SealedOnce` | kernel/sfs_cow.c:770-775 | While counters stay below 2^48 no (fragment, dot) pair is sealed twice. |
| `Commits.RetryShares` | kernel/sfs_cow.c:1221-1244 | A repeat of an attempt that was never published uses the same dot. |
| `Commits.WrapRepeats` | kernel/sfs_cow.c:1221-1244 | A concrete history of 2^48 + 1 commits of one writer: the first and the last seal fragment 0 under the same dot. |
| `Commits.RetryRepeats` | kernel/sfs_cow.c:770-775 | A concrete head and two attempts from it that seal different bytes of fragment 0 under the same dot. |
| `Commits.CommitAll` | kernel/sfs_cow.c:1136-1552 | Successive batches, frozen or re-cut, are such a sequence, each commit sealing exactly the fragments its batch stages or re-cuts; it ends early only at a batch that is refused (exactly then with that status), does not fit, has a short buffer or wraps the counter. |
| `VersionVector.Monotone` | kernel/sfs_cow.c:439-483 | No counter ever goes down along a chain of commits, which successive records are (Commits.HistoryChain). |
| `Fold.Geometry` | kernel/sfs_cow.c:336-354 | Fragment count and last fragment length determine the size exactly. |
| `Fold.ReadFrag` | kernel/sfs_cow.c:356-432 | A fragment decrypts to its logical length, cut or zero-filled; an index past the table is reported. |
| `Fold.ByteAtIs` | kernel/sfs_cow.c:356-432 | Byte o of fragment i is the sealed plaintext byte, or zero past it or in a hole. |
| `Fold.Reuse` | kernel/sfs_cow.c:1434-1500 | The committed ciphertext becomes an undo image before its slot is scheduled for overwriting. |
| `Fold.Relocate` | kernel/sfs_cow.c:1434-1500 | A fresh address takes the new ciphertext, a committed predecessor is copied to the tail with its pins, no pending overwrite is disturbed. |
| `Fold.PutFrag` | kernel/sfs_cow.c:1434-1552 | Once the pending overwrites are applied the fragment is stored at the returned address and every other cell is unchanged; a committed slot is reused exactly when old and new fill whole blocks of the same footprint, and running out of space needs a gap below what the fragment and its predecessor take. |
| `Fold.SealOne` | kernel/sfs_cow.c:1434-1552 | One staged fragment is sealed under the new dot, in place or relocated, and everything sealed or carried over before it stays so. |
| `Fold.SealAll` | kernel/sfs_cow.c:1380-1552 | Every staged fragment ends sealed under the new dot and every other one is as carried over, across any number of drains. |
| `Fold.Collapse` | kernel/sfs_cow.c:1554-1578 | The suite table collapses exactly when uniform (to the current suite if anything was written) and never changes a fragment's suite. |
| `Fold.CheckDirty` | kernel/sfs_cow.c:1212-1219 | Accepts exactly strictly ascending fragment numbers within the new count. |
| `Fold.FoldRec` | kernel/sfs_cow.c:1291-1540 | The finished tables are a readable record of exactly the requested size and bytes. |
| `Fold.FoldFrozen` | kernel/sfs_cow.c:1291-1540 | At the stream's own fragment size the successor holds staged bytes where staged, kept fragments below the cut, zeros elsewhere, under a fresh dot; out of space only when the gap is below the sum over the staged fragments. |
| `Fold.FoldMeaning` | kernel/sfs_cow.c:1291-1330 | The fold gives staged bytes, old bytes below the minimum and zeros otherwise if and only if the fragment the minimum cuts is clean past it or staged. |
| `Fold.BoundaryStaged` | kernel/sfs_cow.c:1291-1330 | A minimum on a fragment boundary, or a staged boundary fragment, is enough. |
| `Fold.StaleBytes` | kernel/sfs_cow.c:1291-1330 | A concrete record and its exact fold for which truncating and growing without staging the cut fragment reads 7 where the promise says 0. |
| `Rechunk.DeriveExp` | kernel/sfs_format.h:311-345 | The schedule loop yields 12, 14, 18 or 22 with the exact thresholds 2^14, 2^18 and 2^26. |
| `Rechunk.Materialise` | kernel/sfs_cow.c:967-1016 | A new fragment is the wanted file's window: staged bytes, old bytes below the cut, zeros. |
| `Rechunk.ReleaseOld` | kernel/sfs_cow.c:849-933 | Pinned fragments are copied to the tail; the unpinned whole-block ones, and no others, go to the deferred free, in order; it fails only when the gap is below what the pinned copies take. |
| `Rechunk.FreedIff` | kernel/sfs_cow.c:903-922 | An extent is freed if and only if it is an unpinned fragment of at least 4096 bytes. |
| `Rechunk.Resplit` | kernel/sfs_cow.c:944-1045 | Every new fragment is sealed from exactly the wanted bytes and placed on fresh space. |
| `Rechunk.ResplitRec` | kernel/sfs_cow.c:795-1045 | The re-cut record reads back the wanted bytes at every position. |
| `Rechunk.Recut` | kernel/sfs_cow.c:795-1045 | The whole stream moves to the new fragment size under one fresh dot with the wanted content. |
| `Rechunk.CommitUnit` | kernel/sfs_cow.c:1136-1552 | From any readable record, one batch of writes, truncates and extends gives the successor of exactly the final size, at the exponent its size band or its old fragments give. A staged position reads the last byte staged for it. Any other reads the old byte below the minimum and the old size, zero elsewhere: always on a re-cut, and at the frozen size if and only if the cut fragment is clean or staged. Sealed fragments carry the new dot; bad requests are refused exactly; out of space needs a gap below the sum the commit can take; if the slots were not yet rewritten in this scope, every crash point of the commit can be undone. |
| `Rechunk.CommitReads` | kernel/sfs_cow.c:1136-1552 | The successor reads staged, surviving and zero bytes as stated position by position, with the exact condition for the frozen size. |
| `Rechunk.RecutReads` | kernel/sfs_cow.c:795-1045 | A re-cut cuts at the byte: whatever the minimum, unstaged positions below it and the old size keep their byte and the others are zero. |
| `Rechunk.FrozenReads` | kernel/sfs_cow.c:1291-1540 | At the frozen size the same holds if and only if the fragment the cut falls in is clean past it or staged. |
| `Rechunk.CutCleanIff` | kernel/sfs_cow.c:1291-1330 | That fragment is clean or staged, in plain positions, if and only if the fold condition holds. |
| `Rechunk.RefusesIff` | kernel/sfs_cow.c:1136-1219 | A batch is refused if and only if it stages anything for an empty file or, unless the stream is re-cut, a fragment out of order, twice, or past the end. |
| `Wal.InsertWrite` | kernel/sfs_wal.c:60-100 | A write replaces the one at its offset or is inserted in order; other offsets keep theirs. |
| `Wal.Apply` | kernel/sfs_wal.c:140-163 | A byte of the window under a write becomes the byte of the last write covering it, every other byte stays. |
| `Wal.OverTop` | kernel/sfs_wal.c:140-163 | The overlay shows at a position the byte of the last write that covers it. |
| `Wal.OverBare` | kernel/sfs_wal.c:140-163 | Where no write covers a position the overlay shows what is below. |
| `Wal.TouchesIff` | kernel/sfs_wal.c:345-361 | A fragment is touched if and only if a write begins before its end and ends after its start. |
| `Wal.MaxEnd` | kernel/sfs_wal.c:127-138 | The exact maximum of the write ends, zero if there is none. |
| `Wal.LastExactIff` | kernel/sfs_wal.c:127-138 | The 64-bit maximum of the source is the exact one if and only if no write reaches 2^64. |
| `Wal.WindowIsSlice` | kernel/sfs_wal.c:140-163 | Overlaying a window is the window of the overlaid file. |
| `Wal.OverTwice` | kernel/sfs_wal.c:140-163 | Overlaying twice is overlaying once. |
| `Wal.StageFrag` | kernel/sfs_wal.c:362-376 | The read-modify-write buffer of a touched fragment holds its pending bytes. |
| `Wal.StageAll` | kernel/sfs_wal.c:345-381 | Exactly the touched fragments are staged, in order. |
| `Wal.FrozenAgrees` | kernel/sfs_wal.c:290-397 | With the fragment size kept, the folded record equals overlay over old content if and only if no stale tail is uncovered. |
| `Wal.RecutAgrees` | kernel/sfs_wal.c:290-397 | With a re-cut the two always agree. |
| `Wal.Checkpoint` | kernel/sfs_wal.c:290-397 | The size is the larger of old size and last write end, the request is never refused, the result has absorbed the overlay, and it agrees with overlay over old content exactly when re-cut or the tail is clean; each covered byte of the successor is that of the last write over it, each other byte is the old one or zero under the same condition, and out of space needs a gap below the sum the commit can take. |
| `Wal.FrozenAbsorbs` | kernel/sfs_fs.h:80-95 | Reading a record folded at its own fragment size through the same overlay again gives the same bytes, whether or not the tail was clean. |
| `Wal.AgreedAbsorbs` | kernel/sfs_fs.h:80-95 | So does reading any record that agrees with the overlay. |
| `WalLog.FrontBack` | kernel/sfs_wal.c:197-226 | A written log record is read back whatever follows it. |
| `WalLog.LogBack` | kernel/sfs_wal.c:167-288 | A log reads back entry by entry up to whatever ends it. |
| `WalLog.EndsIff` | kernel/sfs_wal.c:167-288 | What follows a whole log is ignored if and only if no undamaged record stands at its front. |
| `WalLog.TornAppend` | kernel/sfs_wal.c:167-288 | A crash anywhere in an append, whatever the region holds after it: torn in the body the record is lost if and only if the body runs out or its checksum differs, torn in header or checksum if and only if what follows does not complete the magic or the mixture is not intact; nothing before it is lost. |
| `WalLog.ZeroEnds` | kernel/sfs_wal.c:167-288 | Zeroed space ends the log. |
| `WalLog.Overlay.UnitIndex` | kernel/sfs_wal.c:30-56 | A unit has one slot, appended on first use. |
| `WalLog.Overlay.Insert` | kernel/sfs_wal.c:60-100 | The overlay mirrors the map with that (unit, offset) rebound. |
| `WalLog.Replay` | kernel/sfs_wal.c:167-288 | Replay succeeds exactly when every unapplied record opens, and then the overlay binds, for each unit and offset logged after the applied number, the first len bytes of the plaintext of the latest such record, and binds nothing else. |
| `WalLog.PlayedIs` | kernel/sfs_wal.c:255-268 | Playing records in order binds each unit and offset to the last unapplied record of it, cut to its length. |
| `WalLog.MaxNumIs` | kernel/sfs_wal.c:167-288 | The highest number seen is at least the applied one and every logged one, and is one of them. |
| `Codec.StreamBack` | kernel/sfs_encode.c:153-185 | Decoding an encoded stream returns every field and leaves what follows. |
| `Codec.EmitStream` | kernel/sfs_encode.c:153-185 | The encoder with its running write position produces the stream's encoding. |
| `Codec.ParsePins` | kernel/sfs_record.c:82-98 | The pin loop accepts exactly the tables whose bitmaps end inside the body. |
| `Codec.ParseStream` | kernel/sfs_record.c:22-104 | The cursor decoder agrees with the functional decoder on every byte string, failures included. |
| `Codec.RecordRoundTrip` | kernel/sfs_record.c:107-246 | Decoding an encoded record returns every field. |
| `Codec.DamageRefused` | kernel/sfs_record.c:107-246 | A body whose checksum differs is refused. |
| `CodecLayout.StreamLayout` | kernel/sfs_encode.c:153-185 | Count, dots, count, locations, version vector, exponent, last length and pins lie at their byte offsets, numbers least significant byte first. |
| `CodecLayout.StreamExact` | kernel/sfs_record.c:22-104 | A byte string decodes to a stream if and only if it begins with that stream's encoding. |
| `CodecLayout.RecordLayout` | kernel/sfs_encode.c:187-240 | Magic, uuid, parent, stream flags, streams, trailing fields and the checksum of all before it lie at their byte offsets. |
| `CodecLayout.DecodedLayout` | kernel/sfs_record.c:107-180 | Any accepted record, whoever wrote it, has these fields at these offsets and the right checksum. |
| `Codec.SameSigned` | kernel/sfs_sign.c:208-285 | Collecting signed fields from the wire form and from the parsed stream agree. |
| `Codec.PayloadsAgree` | kernel/sfs_sign.c:220-309 | The payload signed before writing is the payload verified after reading. |
| `Codec.PayloadInjective` | kernel/sfs_sign.c:164-206 | Equal payloads have equal signed fields, all of them. |
| `CodecLayout.PayloadLayout` | kernel/sfs_sign.c:150-206 | The signed bytes are "sfsu-sig", uuid, flags, the signed fields of each stream present, and "sfsu-db" with the 33-byte head if there is one, each at its offset, and nothing else. |
| `Codec.RewriteKeepsSignature` | kernel/sfs_cow.c:650-751 | A rewrite with new locations and no parent decodes to itself, carries the signature and leaves the payload unchanged. |
| `Ns.Compare` | kernel/sfs_ns.c:25-34 | Negative exactly for the smaller key in byte order, zero exactly for equal keys. |
| `Ns.Find` | kernel/sfs_ns.c:36-59 | Binary search finds the key if and only if present, else where it belongs. |
| `Ns.Insert` | kernel/sfs_ns.c:70-108 | The key is rebound in order, every other key keeps its uuid. |
| `Ns.Erase` | kernel/sfs_ns.c:61-68 | Exactly one key disappears, order is kept. |
| `Ns.Ns.Lookup` | kernel/sfs_ns.c:161-174 | Added, removed or silent, as the arrays say. |
| `Ns.Ns.Remove` | kernel/sfs_ns.c:136-148 | The key is marked removed, every other mark is kept, the arrays stay disjoint. |
| `Ns.Ns.Add` | kernel/sfs_ns.c:150-159 | The key is marked added, every other mark is kept, the arrays stay disjoint. |
| `Ns.Ns.Consume` | kernel/sfs_ns.c:245-261 | Marks covered by the snapshot go silent; an add with a new uuid stays pending. |
| `Ns.CommitInvisible` | kernel/sfs_ns.c:230-261 | For any operations during the commit, consuming after the publish changes no lookup. |
| `Ns.Interleave` | kernel/sfs_ns.c:136-159 | Operations let through during a commit leave each key with the mark of its last operation and never drop a snapshot key. |
| `Ns.Close` | kernel/sfs_ns.c:245-261 | Closing the window consumes exactly the snapshot and keeps every lookup. |
| `NsCommit.PutsAt` | kernel/sfs_write.c:2091-2098 | After the additions a listed key has its uuid and every other key is as the removals left it. |
| `NsCommit.DelsAt` | kernel/sfs_write.c:2080-2090 | After the removals exactly the listed keys are gone. |
| `NsCommit.SnapshotApplied` | kernel/sfs_write.c:2075-2100 | The catalog edited from a snapshot is what the snapshot says over the old catalog. |
| `NsCommit.Rebuild` | kernel/sfs_write.c:2075-2100 | The key catalog becomes the snapshot over what it was and the id catalog stays, or nothing is published; without a fault, with keys and uuids within the catalog limits and gap for the edits, it succeeds. |
| `NsCommit.Publish` | kernel/sfs_write.c:3292-3360 | With operations before and after the flip, a successful commit publishes exactly the snapshot and changes no lookup; one that is refused or fails anywhere changes neither published catalogs nor overlay; without a fault, with keys and uuids within the catalog limits and gap for the edits, it succeeds. |
| `Evict.SatSub` | kernel/sfs_evict.c:54-61 | Exact inside 64 bits, clamped outside. |
| `Evict.EpochSlotIsDouble` | kernel/sfs_evict.c:196-214 | In a band of any width, truncating division gives slot zero exactly to the times less than one width from the epoch on either side. |
| `Evict.SortKeys` | kernel/sfs_evict.c:216-240 | The keys come out ordered by group, newest first, earliest index on ties, and are the same keys. |
| `Evict.LoserFollows` | kernel/sfs_evict.c:251-297 | After sorting, a block loses if and only if its predecessor is of the same group. |
| `Evict.TimeMachine` | kernel/sfs_evict.c:251-297 | Marks exactly the blocks that have a newer rival, or an equally new one listed earlier. |
| `Evict.RivalsIff` | kernel/sfs_evict.c:194-214 | From the epoch on, two blocks of one fragment are rivals if and only if their ages lie in one of the ranges bounded by 3600, 86400, 1209600 and 31536000 seconds and their times in the same period of 3600, 86400, 2592000 or 31536000 seconds; below an hour only equal times are. |
| `Evict.RivalsBeforeEpoch` | kernel/sfs_evict.c:194-214 | With times before the epoch the same holds, except that the periods on both sides of the epoch are one. |
| `Evict.DroppedIff` | kernel/sfs_evict.c:299-355 | What each eviction code drops, in plain terms, and what only a pin saves. |
| `Evict.PinnedAside` | kernel/sfs_evict.c:251-297 | A pinned block never drops and never takes a bucket. |
| `Evict.OneSurvivor` | kernel/sfs_evict.c:251-297 | Every bucket with a competing block keeps exactly one, the newest with the earliest index. |
| `Evict.SecondPassIdle` | kernel/sfs_evict.c:251-297 | A second pass over the survivors at the same time drops nothing. |
| `Evict.EvList.Choose` | kernel/sfs_evict.c:308-355 | The flags are exactly what the eviction code asks for, and the pin-saved blocks exactly those only a pin saves. |
| `Evict.EvList.Decide` | kernel/sfs_evict.c:299-365 | The drop flags, the pinned count and the reclaimed bytes match the decision. |
| `Evict.EvList.Oldest` | kernel/sfs_evict.c:378-392 | The oldest droppable block, earliest index on ties, or none. |
| `Evict.EvList.PressureCap` | kernel/sfs_evict.c:378-401 | Drops oldest first, never a pinned block, and stops exactly at the target or with nothing droppable: without the last block dropped the target is not reached. |
| `Evict.EvList.TailLow` | kernel/sfs_evict.c:403-412 | The lowest surviving address, or the cap. |
| `Field.CrossValue` | kernel/sfs_ed25519.c:606-760 | The ten columns have the value of the product up to a multiple of 2^255 - 19. |
| `Field.CrossFits` | kernel/sfs_ed25519.c:574-605 | With inputs inside the stated bounds every column stays below 2^61. |
| `Field.PartialSumsFit` | kernel/sfs_ed25519.c:574-760 | The magnitudes of a column's products add up below 2^61, so no partial sum overflows. |
| `Field.FactorsFit` | kernel/sfs_ed25519.c:606-660 | Every premultiplied limb fits 32 bits. |
| `Field.ChainValue` | kernel/sfs_ed25519.c:762-802 | The carry chain keeps the value up to a multiple of the modulus. |
| `Field.ChainBounds` | kernel/sfs_ed25519.c:762-802 | Twelve carries bring every limb within 1.01 times 2^25 and 2^24. |
| `Field.Carry` | kernel/sfs_ed25519.c:762-802 | The in-place chain keeps its bounds, and every value on the way through the twelve carries fits 64 bits with the rounding term. |
| `Field.FeMul` | kernel/sfs_ed25519.c:606-815 | The output, which may alias an input, is congruent to the product and within the stated bounds. |
| `Field.SquareColumns` | kernel/sfs_ed25519.c:966-1070 | The merged columns of a square are the columns of the product with itself. |
| `Field.FeSq` | kernel/sfs_ed25519.c:966-1111 | Squaring gives the very limbs that multiplication gives. |
| `FieldBytes.QuotientExact` | kernel/sfs_ed25519.c:1345-1400 | The estimated quotient is exact: what remains lies in [0, 2^255 - 19). |
| `FieldBytes.ReducedIsCanonical` | kernel/sfs_ed25519.c:1370-1442 | The reduced limbs hold the unique representative. |
| `FieldBytes.PackedValue` | kernel/sfs_ed25519.c:1443-1475 | The 32 bytes spell the value of the limbs. |
| `FieldBytes.StaysNarrow` | kernel/sfs_ed25519.c:1370-1442 | The quotient estimate, the added multiple and all ten floor carries stay inside signed 32-bit words. |
| `FieldBytes.FeToBytes` | kernel/sfs_ed25519.c:1370-1475 | The bytes are the representative in [0, 2^255 - 19) of whatever limbs came in, and every value on the way fits a signed 32-bit word. |
| `FieldBytes.OneEncoding` | kernel/sfs_ed25519.c:1345-1368 | Encodings below the modulus of congruent elements are the same bytes. |
| `Recode.Radix16` | kernel/sfs_ed25519.c:1865-1890 | Digits in [-8, 7], the top one at most 8 when the top byte is at most 127, sum to the scalar. |
| `Recode.RoomForCarry` | kernel/sfs_ed25519.c:1504-1537 | Below 2^253 there is always a zero bit above a pending carry. |
| `Recode.RippleUp` | kernel/sfs_ed25519.c:1523-1530 | The carry run adds exactly one at its position and stays inside the array. |
| `Recode.Window` | kernel/sfs_ed25519.c:1513-1536 | Collecting up to six look-ahead bits into a digit keeps the number and leaves an odd digit in [-15, 15]. |
| `Recode.Expand` | kernel/sfs_ed25519.c:1509-1511 | The bits spell the scalar. |
| `Recode.Slide` | kernel/sfs_ed25519.c:1504-1537 | Digits are zero or odd in [-15, 15] and sum to the scalar, with no carry lost off the end. |
| `Defrag.SpanExact` | kernel/sfs_defrag.c:199-214 | The accounted interval of a fragment is exactly the blocks it shares in. |
| `Defrag.AccountStream` | kernel/sfs_defrag.c:186-218 | Exactly the blocks of the non-hole fragments are added, as whole blocks. |
| `Defrag.AccountChain` | kernel/sfs_defrag.c:161-227 | Fails exactly on an unreadable or too long chain; otherwise covers exactly the envelopes and blocks of the whole chain, in whole blocks where records are block-aligned. |
| `Defrag.AccountIds` | kernel/sfs_defrag.c:239-248 | Every id-catalog chain is covered, malformed values skipped. |
| `Defrag.SortByStart` | kernel/sfs_defrag.c:79-86 | The intervals come out by start, none added or lost. |
| `Defrag.EvenHoles` | kernel/sfs_defrag.c:501-529 | Over whole-block intervals the holes are exactly the uncovered bytes. |
| `Defrag.GapScan` | kernel/sfs_defrag.c:501-529 | Frees exactly the whole-block holes below the frontier that no interval covers, and changes nothing else. |
| `Defrag.ScanLeavesNoLeak` | kernel/sfs_defrag.c:489-529 | Afterwards nothing below the frontier is owned unless it is covered. |
| `Relocate.Mover.Copy` | kernel/sfs_defrag.c:267-285 | Succeeds exactly when every source block reads, and then writes the very bytes read, also when the ranges overlap. |
| `Relocate.Mover.MoveOne` | kernel/sfs_defrag.c:352-397 | A fragment moves to the first fit if and only if that is strictly lower, onto space nobody owned, with the same bytes; otherwise it stays and nothing changes; afterwards no lower fit exists. |
| `Relocate.Mover.MoveFragments` | kernel/sfs_defrag.c:352-397 | Every fragment keeps its bytes, none goes up, the vacated extents are exactly those of the moved ones, and fragments without a lower fit all stay. |
| `Relocate.Mover.WriteRecord` | kernel/sfs_cow.c:598-648 | The successor record lands on whole blocks nobody owned. |
| `Relocate.Mover.CompactUnit` | kernel/sfs_defrag.c:306-454 | Whether or not it succeeds every unit and every watched record chain keeps its stored bytes, and everything allocated before reads as before; on a move exactly the moved extents and the old record wait for the flip. A unit moves only if it has content with a fragment, no parent, no strain, a suite and no pins; on success no whole-block fragment of such a unit has a lower fit, and it moved if one had; failure means an unreadable fragment or record, or too little space for the new record. |
| `Relocate.Mover.Pass` | kernel/sfs_defrag.c:531-537 | A pass keeps every unit and all allocated bytes, lowers the sum of fragment addresses whenever it moves anything, leaves no listed fragment with a lower fit, and moves nothing if there was none; it fails only on a unit that cannot be read or whose new record finds no space. |
| `Relocate.Mover.Run` | kernel/sfs_defrag.c:458-543 | Account, sort, free gaps, compact: the freed holes are exactly the bytes left by both catalogs, every id-reachable chain and the free lists; until the flip the old layout stays complete, allocated and readable; from a stable state nothing moves; failure has one of the causes named: an unreadable chain or unit, or no space for a record. |
| `Relocate.RepointLaid` | kernel/sfs_defrag.c:404-446 | Repointing a unit keeps all units on owned, mutually disjoint space apart from everything waiting to be freed. |
| `Relocate.FitShrinks` | kernel/sfs_defrag.c:372-384 | While a pass only takes from the free list, no lower fit can appear. |
| `Relocate.PassFalls` | kernel/sfs_defrag.c:352-397 | The address sum never rises and falls when a visited unit moved. |
| `Relocate.Mover.Release` | kernel/sfs_write.c:5215-5231 | After the flip a root that references every byte in use is published, exactly the waiting extents become free and, one flip later, discardable; no unit, watched chain or catalog node loses a byte. |
| `Relocate.Mover.Cycle` | kernel/sfs_write.c:5143-5251 | One maintenance pass with its flip keeps every unit and watched chain, publishes a root that references everything in use, keeps the previous root as the other slot, and moves nothing from a stable state; a failed one publishes nothing and leaves the old layout in force; it fails only if a chain or unit is unreadable or no space is left for a record. |
| `Relocate.Mover.Converge` | kernel/sfs_defrag.h:31-36 | Repeated passes end, by the falling address sum, in a stable state: no listed fragment has a lower fit, no byte below the frontier is lost, every unit and every watched record chain has its bytes; if it stops earlier a chain or unit is unreadable or no space is left for a record. |
| `Relocate.Mover.NeverDiscarded` | kernel/sfs_write.c:5254-5275 | Between passes no byte in use and no byte the other header slot references is in the discardable set. |
| `Relocate.SecureRepoint` | kernel/sfs_defrag.c:404-446 | Repointing one unit keeps every unit and every watched chain on allocated space that nothing moves or frees, with the same bytes. |
| `Relocate.ChainAccounted` | kernel/sfs_defrag.c:161-227 | The accounting covers every byte of a record chain. |
| `Relocate.InUseReached` | kernel/sfs_defrag.c:458-500 | What units, watched chains and catalog nodes use is reached, allocated and not waiting to be freed. |
| `Relocate.FreshSpace` | kernel/sfs_falloc.c:225-238 | A live allocation is block-aligned, apart from everything owned, and keeps free lists and frontier on the block grid. |
| `Relocate.GoneWaits` | kernel/sfs_defrag.c:404-446 | What a unit gives up are whole blocks, none of them waiting already. |
| `Relocate.ScanSited` | kernel/sfs_defrag.c:501-529 | With everything on the block grid the gap scan frees exactly the uncovered bytes, whole blocks, and no catalog node. |
| `Relocate.SweptScan` | kernel/sfs_defrag.c:489-529 | A second scan finds nothing. |

## Left out

- VFS glue, page cache, locking, ioctl, xattr, ACL, export and mount code: kernel plumbing around the core.
- Directory listing: its duplicate suppression compares neighbours only, so no uniqueness is claimed.
- Ciphers, hashes and CRC: abstract functions; nonces and the record envelope are opaque bytes.
- Ed25519 group law, tables, `sc_reduce`, `sc_muladd` and constant-time behaviour.
- Attribute, metadata and tail codecs: they would repeat the record codec's argument; the byte parsing of the eviction scan likewise.
- Allocation failure (out of memory) paths and I/O errors, except read failures (an absent block) and the barriers, slot reads and header write of a commit.
- Parent-chain compaction (`kernel/sfs_evict.c:564-700`) and the unpublished-create helper `sfs_ns_forget_added`.
- `sfs_trie_walk_nodes`: `Relocate.Mover` takes the list of catalog node addresses as a constant; that a repoint replaces catalog nodes is `Volume.Volume.Put`.
- Report counters of the defragmentation pass and the geometry notification callback.
- CatCow.CowPut: requires that the old root is a stored tree; the error results for an undecodable node are not modelled. The condition for running out of space is one-sided: free-list space may make an edit succeed with a smaller gap.
- CatRemove.CowRemove: requires that the old root is a stored tree; the error results for an undecodable node are not modelled.
- Layout.LayOut: writes the backup copy before the primary, the source the other way round; the device afterwards is the same.
- Builder.PutKey: the freed leaf is simply no longer part of the tree; memory reuse is not modelled.
- Volume.Volume.Commit: which barrier, slot read or header write fails, and what the slots then show, are parameters.
- Rechunk.ReleaseOld: records the extents for the deferred free; the allocator's side is `Falloc.Falloc.RetireBlock`.
- Fold.FoldFrozen: pin bitmaps are represented by the number of pinning commits per fragment; fragment counts are unbounded.
- Rechunk.CommitUnit: the parent link and pin tables of the successor record are not modelled. The condition for running out of space is one-sided.
- Wal.Checkpoint: offsets and lengths are unbounded integers; `Wal.LastExactIff` says when the 64-bit size is the same.
- WalLog.Replay: legacy cipher fallback is folded into the abstract open function.
- Codec.ParseStream: works on byte strings by value; aliasing of the decoded pointers into the buffer is not captured.
- FieldBytes.FeToBytes: bitwise or of non-overlapping shifted limbs is written as addition.
- Evict.SortKeys: the library sort is an insertion sort with the same order.
- Defrag.SortByStart: the library sort is an insertion sort; the source's order among equal starts is unspecified and does not matter.
- Relocate.Mover.CompactUnit: the id catalog is a map here; that its copy-on-write put is map update is `Volume.Volume.Put`.
- Relocate.Mover.Run: assumes that units do not share fragments; the block alignment it starts from is kept by every pass.
- Relocate.Mover.Converge: a chain is watched if it is readable and its unit still owns all of its blocks; re-chunking frees blocks that parents go on naming (`kernel/sfs_cow.c:903-922`), and nothing is promised for those.
- Relocate.Mover.Cycle: the cached geometry refresh between publish and release, and a barrier or header write that fails after being issued, are not modelled.
