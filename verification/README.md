# The radix index of `pkg/collection`, verified

Key-value tables and document stores keep their keys in a persistent radix index: a byte-wise
radix tree whose nodes (`Manifest`) hold edges (`Entry`), each a leaf with a list of values or a
branch to another node. A node is stored as a snapshot in a feed, under the plain concatenation of
the names on its path. This project models the three parts that work on the tree, and proves them
against one specification: a map from byte strings to lists of values, with a sorted listing.

- **The index** inserts, updates, splits and descends, on disk (`memory=false`) or in memory
  (`memory=true`), looks keys up with an early exit, deletes and counts.
- **The batch** builds a tree in memory and flushes it: nodes are stored deepest first down to a
  depth of three, what lies deeper is cut off and stored from a work stack, so that a stored node
  embeds some of its children and refers to others by name.
- **The iterator** seeks and steps through the tree with an explicit stack, a limit and an
  exclusive end key.

## How the model is built

`Tree.Manifest` is a value. A *loaded tree* is a manifest in which every branch holds its child.
`Tree.ValidEntries` is the radix invariant (first bytes strictly ascend, only empty names may repeat,
branches have names and hold a child named after its path). A loaded tree means the list of pairs
`Tree.Leaves`, and the map `Tree.Contents` of that list.

`Storage.Rep(flat, store, m, t)` says that the stored manifest `m`, read against the store, is the
loaded tree `t`: a child is the embedded copy if there is one and is found by name otherwise. `flat`
asks for children by name only. An in-memory put is proved to be the function `Insert.PutTree` on the
loaded tree. An on-disk put is proved to store exactly the manifests that `DiskPut.Writes` gives, in
order, on a store of any shape; and `DiskPut.WritesRep` proves that on a flat store these writes are
`Insert.PutTree` on the tree that the store represents. So the two storage modes are proved to agree.

Lookup is the scan that the code performs (`Tree.Scan`): it steps past entries that do not take the
key and gives up at a larger first byte. On a valid tree it is the lookup by first byte
(`Tree.ScanIsFind`); a merged root may have several entries of one first byte (`Tree.MixedTree`), and
there the scan alone counts. `Tree.Answers` is the map that scans answer from.

`Index`, `Batch`, `Iterator` and `Feed` are classes with the source's fields. The feed is a map from
names to snapshots; every read and every write may fail, and a ghost counter says how often one did,
so that contracts can tell "the key is absent" from "the feed did not answer". Source methods that
update a manifest in place return the updated value here; `Pointers.Node` is the in-memory tree once
more, with real child pointers that are updated in place, and a put on it is proved to be the same
`Insert.PutTree`.

| file | part |
|---|---|
| Bytes.dfy, Tree.dfy | strings, order, common prefixes; nodes, validity, lookup, listing |
| Insert.dfy, Listing.dfy, Remove.dfy | what puts and deletes mean |
| Shadowing.dfy, Runs.dfy | which keys shadow; whole runs against a plain map |
| Storage.dfy, Steps.dfy, DiskPut.dfy, Index.dfy | the feed, the stored form, the writes of a put, the index methods |
| Crash.dfy | stores left between two writes, shared stores |
| Nodes.dfy, AfterFlush.dfy | the names that lookups read; what on-disk puts and deletes do after a flush |
| Deleting.dfy, Landings.dfy | what a delete and a put leave of an index of any shape |
| Pointers.dfy | the in-memory tree with pointers |
| Numbers.dfy | number keys |
| Flush.dfy, Snapshots.dfy, Merge.dfy, Batch.dfy | the flush, exactly what it stores, the merge, the batch methods |
| Depths.dfy | batches too deep for one pass |
| Iteration.dfy, Seeking.dfy, Ranges.dfy, Iterator.dfy | the stack, the seek, what a range gives, the iterator methods |
| Pitfalls.dfy | concrete inputs for the list below |

## What the code does that a reader might not expect

- Putting a key again whose leaf has the empty name adds a second leaf instead of updating the first
  (`Listing.PutShadows`), so an append loses the old values (`Pitfalls.AppendLosesValues`).
  `Shadowing.ShadowsExactly` says it of the keys alone: in a tree that puts have built, those are the
  empty key and the keys that start another stored key.
- A flush adds the root entries one by one, so several empty-named leaves at the root come out in
  reverse, and the oldest value of the empty key is found afterwards (`Pitfalls.FlushRevivesValue`).
  `Merge.MergedLookup` has the exact condition under which a key keeps its answer.
- But for the empty key, a merge answers as the union of both roots exactly where no entry on disk
  takes a key of the batch and answers otherwise (`Merge.MergedLookup`). So a batch put of a key that is
  a leaf of the root on disk is lost (`Pitfalls.MergeLosesPut`), but two keys that only share a first
  byte are both found (`Pitfalls.MergeKeepsBoth`), until a later put takes one of them over
  (`Merge.PutOnMixed` says exactly when, `Pitfalls.PutAfterMergeLosesKey` is an input).
- Nodes of the batch are stored over nodes on disk of the same name. The tree on disk then has the
  batch's node there (`Merge.GraftedRoot`), which is what it had if and only if both lead to the same
  tree (`Merge.SameNameIsSameBranch`); `Pitfalls.MergeLosesBranch` loses two keys.
- A batch filled with `memory=false` is on disk already when it is written. Writing it changes no
  answer but that of the empty key, under the same condition (`Merge.RewrittenLookup`), stores every
  empty-named root leaf once more (`Merge.RewrittenLength`), and makes the root immutable.
- `Write` stores the root with the mutability of the batch root, which is never set: afterwards the
  index opens as immutable.
- After a flush a node can be embedded in its parent's snapshot and be stored under its own name as
  well; lookups read the embedded copy, while puts through a handle opened before the flush read and
  write the other. Below a root branch that was stored in one piece, lookups read exactly the branch's
  own name (`AfterFlush.FlushedIsReadOnce`). So a put that lands in the branch's own node is seen, one
  that goes on below a sub-branch is stored and not found, and one that splits an embedded sub-branch
  leads every key below the shorter name astray (`AfterFlush.SplitMisleads`).
  `AfterFlush.PutIntoFlushedBranch` says exactly when such a put is an update of the map; inputs for the
  three cases, after the write of a batch to an index without entries, are
  `Pitfalls.PutAfterFlushIsSeen`, `Pitfalls.PutAfterFlushIsHidden` and
  `Pitfalls.SplitAfterFlushLosesKeys`. Likewise a delete of a leaf of the branch's own node is seen, and
  one of a leaf of an embedded node gives the key's values, stores the node without the leaf, and is not
  seen (`AfterFlush.DeleteAtBranch`).
- A flush does not store a node at the depth limit that has a sub-branch. On a long path that is every
  fourth node (`Depths.SpineStores`). Lookups read it in its parent's snapshot; a put through an open
  handle goes by name and fails (`Depths.FourthNodeIsLost`).
- The first `Batch.Put` with `memory=false` replaces whatever the index held.
- `Get` reports "entry not found" when the root itself cannot be read; `CountIndex` silently leaves
  out what lies below a node that cannot be read; `CreateIndex` replaces an index whose root could
  not be read.
- `Seek` passes over, or seeks inside with an unrelated suffix, a branch that is greater than the key
  and shares its first byte (`Pitfalls.GreaterBranch`). `Seeking.SeekExactly` gives the exact condition,
  `Seeking.GuardSuffices` a guard; `Pitfalls.SeekSkipsGreaterBranch` and `Pitfalls.SeekGoesAstray` are
  concrete losses.
- Deleting the only, empty-named leaf of a node is refused: the parent is computed with
  `filepath.Dir`, which is "." for a name without separators. Two puts and a delete lead there
  (`Pitfalls.DeleteIsRefused`). In a tree that only puts have built, no other delete is refused but
  that of the empty key as the only one (`Shadowing.SoleEmptyExactly`).
- Names are joined without a separator. `Pitfalls.NestedIndexesCollide`: if one index name starts
  another, two puts into the first replace the stored root of the second.
- Negative number keys are listed in reverse (`Numbers.KeyOrder`).

## Model

| member | source | states |
|---|---|---|
| Bytes.LongestCommonPrefix | pkg/collection/index.go:365-385 | The prefix and the two remainders put the strings together again, the remainders differ in their first byte, and the prefix has the one length for which that is so; all three are empty if a string is |
| Tree.LookupIsAssoc | pkg/collection/index_api.go:402-439 | On a valid tree lookup finds a key exactly when some leaf's full path equals it, and answers with the first such leaf |
| Tree.ScanIsFind | pkg/collection/index_api.go:402-439 | On a valid tree the scan that steps past entries and stops at a larger first byte finds what a lookup by first byte finds |
| Tree.AnswersAreScans | pkg/collection/index_api.go:402-439 | The map of answers of a root, merged or valid, has exactly the keys that the scan finds, with their values |
| Tree.ValidAnswers | pkg/collection/index_api.go:402-439 | On a valid tree that is the map of the listing |
| Tree.LeavesAscend | pkg/collection/index_api.go:331-385 | The first-byte order of every node makes the whole listing ascend in byte order, strictly if no node holds two empty names |
| Tree.CountIsKeys | pkg/collection/index.go:247-271 | In a strictly ascending listing there are as many leaves as keys |
| Insert.AddSortedKeepsOrder | pkg/collection/index_api.go:331-385 | Sorted insertion keeps first bytes ascending and yields the old entries plus the new one as a multiset, or the old ones alone if an entry of the same non-empty name, type and values is there; an empty name goes to the front |
| Insert.AddSortedFresh | pkg/collection/index_api.go:331-385 | Inserting an entry with a first byte new to the node, or with an empty name, keeps the node valid and answers for its own first byte only |
| Insert.TouchIsUpdate | pkg/collection/index_api.go:146-305 | Rewriting the entry that shares the key's first byte keeps it valid, keeps its first byte, and changes the answer of that one key below it |
| Insert.SplitIsUpdate | pkg/collection/index_api.go:163-305 | Splitting a leaf or a branch adds the new key, which was absent before, and leaves every answer below the entry as it was |
| Insert.DescendIsUpdate | pkg/collection/index_api.go:242-264 | Putting the rest of a key into the child of a branch changes the answer of the whole key and no other |
| Insert.PutIsUpdate | pkg/collection/index_api.go:134-329 | Every put keeps the tree valid; the key then answers with the kept values followed by the new one, every other key as before |
| Listing.PutWritesOnePair | pkg/collection/index_api.go:134-329 | A put writes one pair of the listing, over the old pair if the key is held by a leaf with a name and beside it otherwise; all other pairs survive all splits, shadowed ones too |
| Listing.PutIsMapUpdate | pkg/collection/index_api.go:134-329 | A put is an update of the finite map the tree stands for |
| Listing.PutCounts | pkg/collection/index_api.go:308-319 | A put adds a leaf exactly when no leaf with a name of its own holds the key |
| Listing.PutShadows | pkg/collection/index_api.go:140-143 | Putting a key held by an empty-named leaf yields just the new value, and the older leaf stays in the tree |
| Listing.OneEmptyAfterPut | pkg/collection/index_api.go:340-345 | "At most one empty leaf per node" survives a put if and only if the key is not held by an empty-named leaf |
| Shadowing.ExtendedIsEmptyNamed | pkg/collection/index_api.go:163-199 | In every valid tree, a stored key that starts another stored key is held by an empty-named leaf |
| Shadowing.BushyAfterPut | pkg/collection/index_api.go:134-329 | Puts leave no node below the root without a named entry |
| Shadowing.ShadowsExactly | pkg/collection/index_api.go:340-345 | A caller can tell from the keys what a put would shadow: a key that is empty or starts another stored key is held by an empty-named leaf, and in a tree that puts have built no other key is |
| Shadowing.SoleEmptyExactly | pkg/collection/index_api.go:101-108 | In a tree that puts have built, a delete is refused for its node if and only if it is that of the empty key as the only one, which the keys tell |
| Storage.Feed.Load | pkg/collection/index.go:274-304 | A read gives the snapshot last stored under the name, or reports that there is none or that the feed failed |
| Storage.Feed.Store | pkg/collection/index.go:306-359 | A write creates or replaces the one snapshot, or fails and changes nothing |
| Storage.Feed.Upload | pkg/collection/batch.go:79-85 | An upload gives the reference that the data determines, or fails |
| Storage.RepIsUniqueTree | pkg/collection/index_api.go:420-432 | A stored root, read with embedded copies and by name, stands for at most one valid tree |
| Storage.RepFrameTree | pkg/collection/index_api.go:425-431 | What a stored node stands for depends only on names strictly longer than its own |
| Storage.SplitIsSafe | pkg/collection/index_api.go:183-198 | Once the new child of a split is stored, the old entry still stands for what it stood for, and the rewritten entry stands for the in-memory split |
| Storage.AddSortedRep | pkg/collection/index_api.go:331-385 | Sorted insertion into the stored node and into the loaded node stay in step, duplicates and empty names included |
| Steps.SplitRep | pkg/collection/index_api.go:183-303 | After the child write and after the parent write of a split, the stored node stands for the tree before and after the put |
| DiskPut.PutAtInMemory | pkg/collection/index_api.go:137-306 | One step of the in-memory put at a node is that step of the put on the loaded tree |
| DiskPut.WritesRep | pkg/collection/index_api.go:134-329 | On a flat store, the writes of a put make the store represent the put on the tree, and the first of them alone change nothing that it stands for |
| Index.Index.AddEntryToManifestSortedLexicographically | pkg/collection/index_api.go:331-385 | The loop computes the sorted insertion that the lemmas describe |
| Index.Index.SplitNode | pkg/collection/index_api.go:164-192 | Builds the node below a split in order and, on disk, stores exactly that one; in memory a split branch takes its child along, on disk it is left to its name; a failed write changes nothing |
| Index.Index.SplitEntry | pkg/collection/index_api.go:163-304 | The three splits of the source: the entry becomes a branch to the new node, which is stored first on disk; a failure leaves node and store as they were |
| Index.Index.DescendEntry | pkg/collection/index_api.go:242-264 | Descending performs the put below the branch: on the loaded child in memory, with the writes of the put below the child found by name on disk |
| Index.Index.RewriteEntry | pkg/collection/index_api.go:137-306 | The loop over a node performs the one step that the node's entries call for, on nodes of any shape |
| Index.Index.AddOrUpdateStringEntry | pkg/collection/index_api.go:134-329 | In memory the loaded tree becomes the put on it; on disk, on a store of any shape, exactly the writes of the put are stored in order, or after a failure the first of them or none |
| Index.Index.Put | pkg/collection/index_api.go:42-59 | On a store of any shape, stores exactly the writes of the put, or after a failure the first of them or none; without a fault it goes through if and only if every node on its way is stored, and reports a missing manifest otherwise; if lookups go the way of the put it updates the map, if they read none of the names it stores nothing changes for them; on a flat store it keeps the store valid and the map old or updated |
| Index.Index.FindManifest | pkg/collection/index_api.go:402-439 | The scan with its early exit, on trees whose root may have several entries of one first byte: the leaf found is the one that answers, and "not found" means that there is none; the remaining key shrinks at each descent |
| Index.Index.SeekManifestAndEntry | pkg/collection/index_api.go:387-400 | Gives the node and position of the answering leaf, or "not found" exactly when there is none if the feed answered |
| Index.Index.Get | pkg/collection/index_api.go:69-76 | Answers from the map of the scans, which on a valid tree is the map of its listing; any value given is the map's even when reads fail |
| Index.Index.Delete | pkg/collection/index_api.go:85-132 | All or nothing, on embedded copies and merged roots too: an error leaves the store unchanged, success stores the node that answers, without the one entry, under its own name and changes nothing else; without a fault it is refused exactly for an absent key and for a node with nothing but an empty-named leaf; if the node is read under its own name no other key's answer changes, and on a valid tree the index stands for the delete on the tree, or for the same tree if the node is read from its parent's snapshot; on a flat store it removes exactly the key |
| Index.Index.CollapseBranch | pkg/collection/index_api.go:101-121 | The manifest taken for the parent is stored without its first branch of the node's base name, whose values are returned; without such a branch it is stored as it was; if it is not there nothing changes |
| Index.Index.CountBranch | pkg/collection/index.go:251-265 | Counts the leaves below a branch and caches a child that stands for the same tree, or counts nothing if the child cannot be read |
| Index.Index.LoadIndexAndCount | pkg/collection/index.go:247-271 | Adds the number of leaves below the node, never more, and turns the cache into the loaded tree if all could be read |
| Index.Index.CountIndex | pkg/collection/index.go:216-245 | On merged roots too, if all nodes could be read: the number of leaves, and the cache is then the whole loaded tree, as iterating an immutable index needs it; on a valid tree without a shadowed leaf, the number of keys; never more than the number of leaves |
| Index.CreateIndex | pkg/collection/index.go:121-158 | Stores an empty root; if the feed answers, exactly when there is no root yet |
| Index.OpenIndex | pkg/collection/index.go:161-182 | Gives a handle that stands for the stored tree, merged roots included, caches its root, has the type asked for and is mutable as the root says, if and only if the root is stored |
| Remove.RemoveIsValid | pkg/collection/index_api.go:123-131 | A delete keeps the tree valid and the empty names single |
| Remove.RemoveDropsOnePair | pkg/collection/index_api.go:123-131 | A delete drops one pair of the listing, the first of its key |
| Remove.RemoveIsMapRemoval | pkg/collection/index_api.go:85-132 | A delete changes no other key's answer, and removes exactly the key from the map if no leaf is shadowed |
| Remove.LocateIsScan | pkg/collection/index_api.go:402-439 | Lookup in the stored form, embedded or by name, is the scan of the tree it represents, on merged roots too |
| Remove.LocateIsFind | pkg/collection/index_api.go:402-439 | On a valid tree, lookup in the stored form, embedded or by name, gives the leaf that answers, in a node on the key's path |
| Remove.RemoveRep | pkg/collection/index_api.go:123-130 | Storing the node without the leaf back under its own name makes the stored root of a valid tree stand for the tree after the delete if the node is read under that name, as it always is in a flat store, and for the same tree if it is read from its parent's snapshot |
| Deleting.LocateInTree | pkg/collection/index_api.go:402-439 | The stored node that answers stands for the node of the loaded tree that answers, on merged roots too; its leaf's full path is the key |
| Deleting.ShrunkIsStored | pkg/collection/index_api.go:123-130 | Whatever is read elsewhere, a delete stores under the node's name what stands for that node of the tree without the leaf, and changes no other name |
| Deleting.DeletedRep | pkg/collection/index_api.go:85-132 | After a delete in an index of any shape the root stands for the tree in which the node without its leaf stands wherever its name is read |
| Deleting.OwnedDelete | pkg/collection/index_api.go:85-132 | If the node that answers is read under its own name, no other key changes its answer, on merged roots too |
| Deleting.UnreadDelete | pkg/collection/index_api.go:123-130 | If nothing reads the node's name, the tree is the one it was |
| Deleting.RootDelete | pkg/collection/index_api.go:123-130 | Deleting a leaf of the root, of a merged one too, takes that one entry out of the root and changes nothing below |
| Deleting.ValidDelete | pkg/collection/index_api.go:85-132 | On a valid tree there is no third case: the tree after the delete is the delete on the tree if the node is read under its own name, and the same tree otherwise |
| Pointers.Node.PutInPlace | pkg/collection/index_api.go:134-329 | In memory, with children held by pointer and updated in place, a put gives the same tree; only nodes of the tree are written |
| Pointers.Node.SplitCell | pkg/collection/index_api.go:163-305 | In place, a split hands the old child over by pointer to the new node |
| Pointers.Node.Descend | pkg/collection/index_api.go:250-263 | In place, a put below a branch changes the child's subtree and nothing beside it |
| Runs.RunIsMapRun | pkg/collection/index_api.go:42-132 | Over every run of puts, appending or not, and deletes that shadows nothing, the tree stays valid, stands for what the accepted operations make of a plain map of value lists, and has one leaf for each key; so appended values survive all later splits |
| Runs.LastPutWins | pkg/collection/batch.go:56-111 | Over every run of non-appending puts, shadowing or not, each key answers with the last value put for it |
| Runs.PutRunIsMapRun | pkg/collection/index_api.go:134-329 | Over every run of puts whatsoever from an empty index, the map is determined by the keys and values alone: an append keeps the old values exactly if the key is neither empty nor the start of another stored key |
| Crash.CrashBetweenWrites | pkg/collection/index_api.go:183-198 | If the writes of a put stop anywhere, at whatever depth, the stored root is the same, stands for the same tree, and every lookup answers as before |
| Crash.FirstWriteIsChild | pkg/collection/index_api.go:183-327 | A put on a flat store makes two writes if and only if it splits an entry, and the first is that of the new child |
| Crash.SplitNameIsNew | pkg/collection/index_api.go:164-165 | The name of the child that a put stores first is the name of no reachable node |
| Crash.SplitNameIsReached | pkg/collection/index_api.go:194-198 | After the put a node of that name can be reached |
| Crash.SameAnswers | pkg/collection/index_api.go:402-439 | Two stored forms of one tree, however cut, answer every lookup alike |
| Nodes.UnreadIsHidden | pkg/collection/index_api.go:420-432 | What a stored node stands for depends only on the names that lookups read: those of children not embedded |
| Nodes.UnreachedIsUnread | pkg/collection/index_api.go:420-432 | Only names of nodes of the tree are read |
| AfterFlush.HiddenWrites | pkg/collection/index_api.go:420-432 | Writes under names that no lookup reads change no answer |
| AfterFlush.SavedIsFlushed | pkg/collection/batch.go:257-304 | A branch that a write has saved and that is too low for a cut is stored in one piece |
| AfterFlush.FreshIsFlushed | pkg/collection/batch.go:190-226 | After the write of a batch to an index without entries, every root branch too low for a cut is stored in one piece |
| AfterFlush.FlushedIsReadOnce | pkg/collection/batch.go:257-304 | At and below a root branch stored in one piece, a name is read if and only if it is the branch's own |
| AfterFlush.PutBelowIsHidden | pkg/collection/index_api.go:242-264 | After a flush, a put that goes on below a sub-branch stores names strictly below the branch, and every key answers as before |
| AfterFlush.PutAtBranchIsSeen | pkg/collection/index_api.go:308-327 | After a flush, a put that rewrites the branch's own node without splitting a sub-branch makes the store stand for the put on the tree |
| AfterFlush.SplitMisleads | pkg/collection/index_api.go:217-241 | After a flush, a put that splits an embedded sub-branch makes every key that starts with the shorter name be looked up in the embedded node with the wrong rest |
| AfterFlush.SplitIsNoUpdate | pkg/collection/index_api.go:217-241 | Such a put is never an update of the map: a key below the sub-branch, or the key itself, is lost |
| AfterFlush.PutIntoFlushedBranch | pkg/collection/index_api.go:134-329 | A put into a flushed branch is an update of the map if and only if it rewrites the branch's own node without splitting a sub-branch, or goes below a sub-branch and changes nothing anyway |
| AfterFlush.PutAtRootIsSeen | pkg/collection/index_api.go:134-329 | On a store of any shape and merged roots too, a put that rewrites the root makes the store stand for the put on the tree; if it splits an entry, that entry is by name and nothing reads the new node's name |
| AfterFlush.NewNodeIsUnread | pkg/collection/index_api.go:183-192 | On a valid tree nothing reads the new node's name |
| AfterFlush.LoadedIsOwned | pkg/collection/index_api.go:123-130 | In a branch stored in one piece only the leaves of the branch's own node lie in a node that is read under its own name |
| AfterFlush.DeleteAtBranch | pkg/collection/index_api.go:123-130 | After a flush, the delete of a leaf of the branch's own node is the delete on the tree, that of a leaf of a node embedded in it changes nothing that the root stands for |
| AfterFlush.AnswersAfterDelete | pkg/collection/index_api.go:85-132 | After either delete every other key answers as before; the deleted key does too if its leaf lay in an embedded node, and is gone if it lay in the branch's own node and no leaf was shadowed |
| Landings.WritesLand | pkg/collection/index_api.go:242-327 | A put follows names only: it stores what a put into the node stores that it comes to through every branch on the way of its key, and nothing if one of these nodes is not stored |
| Landings.FollowedPut | pkg/collection/index_api.go:134-329 | On a store of any shape, if every branch on the way of the key is by name, and the entry that is split is, the put goes through and the store stands for the put on the tree |
| Landings.FlatFollows | pkg/collection/index_api.go:242-264 | In a flat store lookups always go the way of the put |
| Landings.LandedPut | pkg/collection/index_api.go:134-329 | Where lookups need not go that way, and on merged roots: the node that the put lands in then stands for the put on what it stood for, and the root for the tree in which that node stands wherever its name is read |
| Crash.ApartIndexesAreIndependent | pkg/collection/index_api.go:245 | Whatever is written below one index name leaves an index alone whose name neither starts it nor is started by it |
| Pitfalls.AppendLosesValues | pkg/collection/index_api.go:140-143 | Two appends and an append to the shorter key: only its last value is left |
| Pitfalls.FlushRevivesValue | pkg/collection/batch.go:193-203 | Two puts of the empty key: found is the newer value before the flush and the older one after it |
| Pitfalls.MergeLosesPut | pkg/collection/batch.go:193-195 | One key in the root on disk and in the batch: the merge holds both leaves and the scan finds the value on disk |
| Pitfalls.MergeKeepsBoth | pkg/collection/batch.go:193-195 | Two keys of one first byte, one on disk and one in the batch, are both found in the merged root |
| Pitfalls.PutAfterMergeLosesKey | pkg/collection/index_api.go:163-199 | With one key on disk and another merged in behind it, a put that splits the first entry loses the second key |
| Pitfalls.MergeLosesBranch | pkg/collection/batch.go:196-201 | Two keys below a branch on disk and two below a branch of that name in the batch: in the store that the write leaves, only those of the batch are found |
| Pitfalls.PutAfterFlushIsHidden | pkg/collection/index_api.go:242-264 | After the write of a batch to an index without entries, a put below a sub-branch: the name it stores, and the key is not found |
| Pitfalls.PutAfterFlushIsSeen | pkg/collection/index_api.go:308-327 | After the same write, a put into the branch's own node: the name it stores, and the key is found |
| Pitfalls.SplitAfterFlushLosesKeys | pkg/collection/index_api.go:217-241 | After the same write, a put that splits the embedded sub-branch: two keys that were found are not |
| Pitfalls.DeleteIsRefused | pkg/collection/index_api.go:101-108 | Two puts and a delete lead to a stored key whose delete is refused |
| Pitfalls.GreaterBranch | pkg/collection/iterator.go:260-296 | For every greater branch of the key's first byte that does not start it: all its keys are greater; the seek keeps none of them if the name is not shorter than the key, and otherwise what a seek inside keeps with the unrelated rest |
| Pitfalls.SeekGoesAstray | pkg/collection/iterator.go:260-296 | Two puts, as of "ab1" and "ab2", lead to an index in which a seek, as of "aa9", keeps nothing though both keys are greater |
| Pitfalls.PassedOver | pkg/collection/iterator.go:260-296 | A seek loses every branch whose name properly extends the key |
| Pitfalls.SeekSkipsGreaterBranch | pkg/collection/iterator.go:260-296 | Two puts lead to an index in which a seek keeps nothing though both keys are greater |
| Pitfalls.NestedIndexesCollide | pkg/collection/index_api.go:165 | Two puts into an index replace the snapshot under any longer index name that its own name starts |
| Numbers.KeyRoundTrip | pkg/collection/batch.go:73-78 | Parsing the fixed-width key of an int64 gives the number back |
| Numbers.ParseExactly | pkg/collection/batch.go:73-78 | A string parses to a number if and only if it is a decimal spelling of it: an optional sign, then its digits behind any number of zeros |
| Numbers.ParseNone | pkg/collection/batch.go:73-78 | A string does not parse if and only if it spells no number of 64 bits |
| Numbers.KeyIsPadded | pkg/collection/batch.go:73-78 | The key of a number is its sign and its digits behind zeros, twenty characters in all |
| Numbers.SpellingsOfKey | pkg/collection/batch.go:73-78 | A string addresses the entry of a number if and only if it spells that number |
| Numbers.SpellingsOfFive | pkg/collection/batch.go:73-78 | "5", "05" and "+5" address one entry, that of the key of nineteen zeros and a five |
| Numbers.SpellingsAgree | pkg/collection/batch.go:73-78 | Two spellings address one entry if and only if they denote one number |
| Numbers.KeyOrder | pkg/collection/batch.go:73-78 | Byte order of number keys is numeric order, reversed among negative numbers |
| Numbers.KeyOrderIsNumeric | pkg/collection/batch.go:73-78 | Byte order and numeric order agree on two numbers exactly unless they are different and both negative |
| Flush.CutRepTree | pkg/collection/batch.go:257-266 | A tree with branches cut out still stands for the whole tree once every cut branch is saved |
| Flush.NextRoundIsLower | pkg/collection/batch.go:228-247 | What a round stacks is lower than what the round stored, so emptying the stack ends |
| Flush.NextRoundIsClear | pkg/collection/batch.go:228-247 | What later rounds write cannot overwrite what a round stored |
| Flush.NextRoundIsWithin | pkg/collection/batch.go:228-247 | Later rounds write only to nodes of the trees of this round, and to none of a tree that was not cut |
| Flush.RoundIsSaved | pkg/collection/batch.go:228-247 | If the branches stacked by a round are saved later, everything the round stored is saved |
| Snapshots.StoresNowOrLater | pkg/collection/batch.go:250-307 | For a tree that comes to a flush at any depth: a name is stored in the end if and only if it is stored in this pass or by what this pass puts on the stack |
| Snapshots.FlushStores | pkg/collection/batch.go:228-307 | The names that emptying the stack stores are exactly those that the depth limit lets through, for trees of every shape |
| Snapshots.LimitNode | pkg/collection/batch.go:259-264 | A node at the limit is stored under its own name if and only if it has no sub-branch |
| Snapshots.StoresEvery | pkg/collection/batch.go:257-304 | Of a tree that fits above the limit every node is stored |
| Snapshots.RootBetween | pkg/collection/batch.go:205-220 | The root is stored between the first round and the others and is overwritten by none |
| Depths.LadderTree | pkg/collection/batch.go:56-87 | The batch of a put for every prefix of a word has one path of nodes, one for each prefix |
| Depths.SpineStores | pkg/collection/batch.go:259-264 | On such a path of any length exactly every fourth node is left out, unless it is the last |
| Depths.FourthNodeIsLost | pkg/collection/batch.go:259-264 | After such a batch was written to an index without entries, exactly every fourth node is not stored by the write; if the first of these was not there before, no put of a key that leads to it goes through. "a1", "ab1", "abc1", "abcd1", "abcde1", "abcde2" are such keys |
| Merge.MergedLookup | pkg/collection/batch.go:190-226 | What a merged root answers, for all roots: what takes the key on disk comes first, of the empty names the oldest of the batch; that is the union in which the batch counts if and only if no entry on disk takes a key of the batch and answers otherwise, and the oldest and newest empty-named leaves of the batch hold the same values |
| Merge.MergedAnswers | pkg/collection/batch.go:190-226 | The map that a merged root answers from is the union of the two maps if and only if every key of the batch is merged so |
| Merge.MergedIsValid | pkg/collection/batch.go:190-226 | Roots that share first bytes only in equal entries or empty names merge into a valid root |
| Merge.FlushedLookup | pkg/collection/batch.go:193-203 | On an empty root a key keeps its answer if and only if it is not the empty key, or the oldest and the newest of its root leaves hold the same values |
| Merge.RewrittenLookup | pkg/collection/batch.go:190-226 | A root merged with itself keeps every answer under the same condition |
| Merge.RewrittenLength | pkg/collection/batch.go:193-195 | A root merged with itself grows by exactly the number of its empty-named leaves |
| Merge.PutOnMixed | pkg/collection/index_api.go:134-329 | A put into a root whose entries share first bytes: the key gets its value, and another key changes its answer, to none, if and only if the split of the first entry takes it over from an entry behind |
| Merge.DisjointIsUndisturbed | pkg/collection/batch.go:193-203 | A batch tree without a branch node of a name in the tree on disk stores over nothing that is read |
| Merge.SameNameIsSameBranch | pkg/collection/batch.go:196-201 | A branch on disk of the same name as a saved branch of the batch keeps its meaning if and only if both lead to the same tree |
| Merge.GraftedRoot | pkg/collection/batch.go:190-226 | After a write the root on disk stands for a tree of the same shape, in which nodes of the batch stand where they were stored over nodes that are read |
| Merge.GraftedSame | pkg/collection/batch.go:190-226 | That is the tree as it was if no name read on disk is the name of a node of the batch |
| Merge.DiskUntouched | pkg/collection/batch.go:197-204 | At every moment of a write, if no node of the batch has a name that is read on disk, the root that was on disk stands for what it stood for |
| Merge.WrittenRep | pkg/collection/batch.go:190-226 | The merged, stripped root entries stand for the merged tree, flat if both roots are |
| Merge.WriteDone | pkg/collection/batch.go:190-226 | After the last write the stripped batch root stands for the batch, and the merged root for the merge of the batch with the tree on disk, in which nodes of the batch stand where they were stored over nodes that are read; flat if the batch was filled on disk, and valid if both share first bytes only in equal entries or empty names |
| Merge.WriteFailed | pkg/collection/batch.go:190-226 | At every failure the old root stands for what it stood for, and the merged root answers as before every key but the empty one that an entry on disk takes, and every key that no batch entry takes |
| Batch.Batch.Put | pkg/collection/batch.go:56-87 | A put updates the batch's map under the key itself, on a number index under the fixed-width key of the number that the key spells in whatever way, with the value or on a bytes index its reference; without a fault it fails only for a read-only feed or a key that spells no number; in memory it stores no node; on disk the batch root becomes the index root |
| Batch.Batch.ValidIsReadable | pkg/collection/batch.go:90-111 | A batch that has not been written can be read, in either storage mode |
| Batch.Batch.KeyAndValue | pkg/collection/batch.go:73-85 | The key is the caller's, or on a number index that of the number it spells, and none if it spells none; the value is the caller's, or on a bytes index its reference |
| Batch.Batch.Get | pkg/collection/batch.go:90-111 | Answers from the batch's map under the key, on a number index under that of the number it spells, before a write and after it; from a loaded tree it never reads the feed |
| Batch.Batch.StoreMemoryManifest | pkg/collection/batch.go:250-307 | Stores exactly what one pass stores, and stacks and cuts out exactly what it cuts; at the depth limit a node with a sub-branch is not stored: its first sub-branch is stacked, only that one is let go, and nothing is written; above it the node is stored under its name; a branch too low for a cut is stored whole; after a failure too, all that has changed is the name of a node of the branch, with that node up to the cuts |
| Batch.Batch.EmptyManifestStack | pkg/collection/batch.go:228-247 | Ends with an empty stack, every stacked branch saved, and the store changed by exactly the snapshots of all rounds; whatever changes is the name of a node of a stacked branch, and what is stored there stands for that node |
| Batch.Batch.MergeEntries | pkg/collection/batch.go:193-203 | Adds every batch entry in order, stores every branch of the batch root up to the cuts on the stack, and lets go of it |
| Batch.Batch.MergeAndWriteManifest | pkg/collection/batch.go:190-226 | For all roots: the stored root holds the merged entries with every child by name, all branches of the batch are saved and the stack is empty, and the store has changed by exactly the root and the snapshots of all rounds; at every failure the root is the old one or the merged one, only it and nodes of the batch have changed, each to itself without some branches, and the batch root keeps its entries |
| Batch.Batch.Write | pkg/collection/batch.go:169-188 | For all roots, batch trees of every depth, and batches put on disk as they were filled: beside the root exactly those nodes of the batch are stored under their own names that the depth limit lets through, and no name outside the index changes; the index stands for the merge of the batch with the tree on disk, in which nodes of the batch stand where they were stored over nodes that are read; that is the tree as it was if no name read on disk is that of a node of the batch; the merge answers as the union under the exact condition, key by key and as a map; the batch keeps its entries and can still be read; a failed write that has disturbed nothing leaves the old index or a root that answers as before every key an entry on disk takes |
| Iteration.BelowEndIsPrefix | pkg/collection/iterator.go:347-354 | In an ascending list the keys below the end are a prefix, so stopping at the first key past the end loses none |
| Iteration.Taking | pkg/collection/iterator.go:342-368 | Taking the next entry gives the next pending pair if it is a leaf; all that it passes lies below its path; if it is past the end, so is all that is pending |
| Iteration.NextPathIsLeast | pkg/collection/iterator.go:344-353 | The path of the next entry is at most every key still pending on the whole stack |
| Iteration.ItemsAscend | pkg/collection/iterator.go:317-385 | What is pending on a well-formed stack is in ascending order |
| Iterator.Iterator.PopExhausted | pkg/collection/iterator.go:317-340 | Popping exhausted nodes loses no pending pair, and reports the end only if none is pending |
| Iterator.Iterator.TakeEntry | pkg/collection/iterator.go:342-360 | The entry taken is the next one of the top node, and the key computed for it is its full path without the index name |
| Iterator.Iterator.EnterBranch | pkg/collection/iterator.go:366-384 | Pushes the whole child, by name or by pointer, or reports that it could not be read |
| Iterator.Iterator.Step | pkg/collection/iterator.go:342-387 | Gives the next pair, stops with nothing more below the end, or enters a branch with less left to visit |
| Iterator.Iterator.NextStringKey | pkg/collection/iterator.go:302-388 | Terminates; gives one more pair and leaves the error alone, or returns false with key and value unchanged: at the limit, with nothing below the end pending, or after one branch could not be read, which is then the error |
| Iterator.Iterator.Next | pkg/collection/iterator.go:166-168 | As long as all branches could be read: what was given is the start of the expected list, and true means that it was not all of it, so that false is final. Also after failed reads: what is given are pairs of the list, in order, once and below the end, and of those come to only pairs below the branches that could not be read are missing, one branch for each failure |
| Iterator.Iterator.IntegerKey | pkg/collection/iterator.go:176-182 | The number for every fixed-width key of an int64; for any other key that parses, the number that addresses the same entry; -1 for a key that is no number |
| Iterator.Iterator.SeekStringKey | pkg/collection/iterator.go:195-300 | The stack holds exactly the pairs that the seek keeps, above what it held before; "not found" leaves it alone and means that no entry of the node stops the seek or is one to go on below |
| Iterator.Iterator.Seek | pkg/collection/iterator.go:142-163 | A fresh iterator is set up to give, in ascending order, what the seek keeps of the index; "not found" exactly if no entry of the root stops the seek or is one to go on below |
| Iterator.NewStringIterator | pkg/collection/iterator.go:48-87 | A valid iterator over the whole listing or over what the seek keeps of it; with reads that succeed, an error exactly if there is a start and no entry of the root meets it |
| Seeking.SeekByNames | pkg/collection/iterator.go:195-300 | In names and bytes: a seek keeps all behind the entry of the key's first byte, or from the first larger one on; of that entry it keeps a leaf that is not smaller, and of a branch whose name starts the key, or is greater and shorter, what a seek inside it keeps with the key cut by as many bytes |
| Seeking.MeetsByNames | pkg/collection/iterator.go:195-300 | In names and bytes: when a seek meets an entry at all |
| Seeking.SeekExactly | pkg/collection/iterator.go:195-300 | A seek keeps exactly the pairs not smaller than the key if and only if every greater branch it meets has no leaves, or is shorter than the key and all below it is not smaller than the key cut by as many bytes |
| Seeking.GuardSuffices | pkg/collection/iterator.go:231-296 | Without a greater branch of the same first byte on the way, a seek is exact, for stored and for absent keys |
| Seeking.StoredKeysAreGuarded | pkg/collection/iterator.go:222-258 | A stored key meets no such branch |
| Ranges.RangeIsExact | pkg/collection/iterator.go:302-388 | What an iteration gives is strictly ascending and consists of exactly the map's pairs from the start on and below the end; a limit takes the first so many |
| Ranges.FullIterationCounts | pkg/collection/index.go:216-271 | A full iteration is as long as the map is large |
| Ranges.NumberListingAscends | pkg/collection/iterator.go:176-182 | A listing of non-negative number keys is in numeric order, and parsing its keys gives the numbers |

## Left out

- HTTP, websocket, wasm, gomobile and command-line code, `pkg/account`, `pkg/act` and packet framing: argument checks and calls into other systems.
- Encryption, JSON, hashing and blobs: the feed is a map of snapshots by name and of blobs by reference, topics are taken to be injective on names, and a manifest that cannot be unmarshalled is one more failed read.
- Creation times, pod file, index type, dirty flag of stored manifests; the dirty flag of a batch root is always set. A nil and an empty list of entries are not told apart.
- The stored `Count` and `idx.count` as a count of keys: every on-disk put adds to it, updates too. Only `CountIndex` is given a meaning. Counters and limits are unbounded integers here, not 64-bit ones.
- `DeleteIndex`, `IsEmpty`, `Batch.Del`, `NewIntIterator`, and the float number keys.
- The deleted-feed marker: `CreateIndex` and `storeManifest` treat a deleted feed as an absent one, which is how the model sees it.
- The three split branches of the source are one method here, and so are its two descend branches; they do the same. Puts in memory and iteration ask for valid trees, in which no node has two entries of one first byte.
- Index.OpenIndex: the index type is given by the caller, where the source reads it from the root; stored manifests have no type here.
- Index.Index.Delete: asks that index name and key hold no '/', and what it does to other keys is claimed only if nothing is stored under the name "."; with either, the branch collapse edits a manifest that is not the parent (`Index.Index.CollapseBranch` has what it does to the one under ".").
- Index.Index.CountIndex: nothing exact is claimed when a node cannot be read, where the source drops a part of the count without an error.
- Index.Index.Put: its own contract has the tree afterwards where lookups go the way of the put, or read nothing that it stores; for other stores `Landings.LandedPut` has it, and for the split of an embedded branch, after which no tree is valid, `AfterFlush.SplitMisleads`. Mutable iteration after a flush reads by name what lookups read from embedded copies and is not covered.
- Batch.Batch.Write: says nothing of what lookups on disk answer after a write has failed that has stored nodes of the batch over nodes that are read. A batch filled on disk must be the stored root, which it is unless a put has failed.
- Batch.Batch.Put: does not cover mixing both modes in one batch, which follows a missing child pointer in the source, puts in memory after a write, which do the same, or the disk contents after an on-disk put has failed.
- Iterator.Iterator.Next: once a branch could not be read, its pairs are lost; the code goes on behind it.
- Iterator.Iterator.Seek: is specified for a fresh iterator; seeking again does not clear the stack in the source.
- Iterator.NewStringIterator: an immutable index must have its children loaded, as `CountIndex` leaves it; otherwise the source stops at the first branch.
- In-place update of shared entries during a flush: `mergeAndWriteManifest` puts the very entries of the batch root into the disk root; the flush is modelled on values, and pointers are modelled for puts only, in `Pointers.Node`.
