/** The batch writer: an in-memory tree that is flushed in depth-limited pieces. */
module Batch {
  import opened Bytes
  import opened Tree
  import opened Insert
  import opened Storage
  import opened Flush
  import opened Snapshots
  import opened Merge
  import opened Index
  import opened Numbers
  import opened Listing
  import opened Remove
  import opened DiskPut

  class Batch {
    const idx: Index
    var memDb: Option<Manifest>
    var manifestStack: seq<Manifest>
    var storageCount: nat

    /** The tree the batch stands for, and how its nodes are kept: by pointer or on disk. */
    ghost var tree: Manifest
    ghost var inMemory: bool

    ghost predicate Valid()
      reads this, idx, idx.feed
    {
      && tree.name == idx.name && ValidTree(tree) && !tree.mutable && manifestStack == []
      && match memDb
         case None => tree.entries == []
         case Some(m) => idx.After(inMemory, m, tree)
    }

    /** The batch root represents `tree`, loaded or read from the feed. */
    ghost predicate Readable()
      reads this, idx, idx.feed
    {
      && tree.name == idx.name && ValidTree(tree)
      && match memDb
         case None => tree.entries == []
         case Some(m) => Rep(false, idx.feed.blobs, m, tree)
    }

    /** A batch that has not been written can be read. */
    lemma ValidIsReadable()
      requires Valid()
      ensures Readable()
    {
      if memDb.Some? && inMemory {
        RepSelfTree(idx.feed.blobs, tree);
      } else if memDb.Some? {
        FlatIsRepTree(idx.feed.blobs, memDb.value, tree);
      }
    }

    /** The map the batch stands for. */
    ghost function Map(): map<Str, Refs>
      reads this
    {
      Contents(Leaves(tree.entries))
    }

    constructor (idx: Index)
      ensures Valid() && this.idx == idx && memDb == None && Map() == map[]
    {
      this.idx := idx;
      memDb, manifestStack, storageCount := None, [], 0;
      tree, inMemory := Manifest(idx.name, false, []), true;
    }

    // ----- The batch as a map -----

    /** The key under which the index keeps what the caller calls `key`. */
    function StringKey(key: Str): Option<Str> {
      if idx.indexType == NumberIndex then NumberKey(key) else Some(key)
    }

    /** What the index keeps for a value: a bytes index keeps where the value was uploaded to. */
    function StoredValue(value: Str): Str {
      if idx.indexType == BytesIndex then idx.feed.reference(value) else value
    }

    /** Both, said without these functions. */
    lemma KeyAndValue(key: Str, value: Str)
      ensures idx.indexType != NumberIndex ==> StringKey(key) == Some(key)
      ensures idx.indexType == NumberIndex ==>
        forall i :: IsInt64(i) ==> (StringKey(key) == Some(FormatKey(i)) <==> Spells(key, i))
      ensures idx.indexType == NumberIndex ==> (StringKey(key).None? <==> forall i :: IsInt64(i) ==> !Spells(key, i))
      ensures idx.indexType == BytesIndex ==> StoredValue(value) == idx.feed.reference(value)
      ensures idx.indexType != BytesIndex ==> StoredValue(value) == value
    {
      hide Spells, FormatKey, ParseInt;
      ParseNone(key);
      forall i | IsInt64(i) ensures NumberKey(key) == Some(FormatKey(i)) <==> Spells(key, i) {
        SpellingsOfKey(key, i);
      }
    }

    /** The stored root is the batch's own root. */
    ghost predicate IsStored()
      reads this, idx, idx.feed
    {
      idx.Valid(true) && memDb == Some(idx.feed.blobs[idx.name]) && idx.tree == tree
    }

    /** A put into the batch. In memory it only updates the map. With its nodes on disk it
        writes them at once, and the first one replaces whatever the index held. */
    method Put(key: Str, value: Str, apnd: bool, memory: bool) returns (r: Outcome)
      requires Valid() && (memDb.Some? ==> memory == inMemory)
      modifies this`memDb, this`tree, this`inMemory, idx`tree, idx.feed
      ensures Valid() && (memDb.Some? ==> memory == inMemory)
      ensures r.Done? ==> StringKey(key).Some? && tree == PutTree(old(tree), StringKey(key).value, StoredValue(value), apnd)
      ensures r.Done? ==> var k := StringKey(key).value;
        Map() == old(Map())[k := Kept(old(tree).entries, k, apnd) + [StoredValue(value)]]
      ensures r.Done? && idx.indexType == NumberIndex ==> forall i :: IsInt64(i) && Spells(key, i) ==>
        Map() == old(Map())[FormatKey(i) := Kept(old(tree).entries, FormatKey(i), apnd) + [value]]
      ensures r.Done? && idx.indexType == BytesIndex ==>
        Map() == old(Map())[key := Kept(old(tree).entries, key, apnd) + [idx.feed.reference(value)]]
      ensures r.Done? && idx.indexType != NumberIndex && idx.indexType != BytesIndex ==>
        Map() == old(Map())[key := Kept(old(tree).entries, key, apnd) + [value]]
      ensures r.Failed? && memory ==> tree == old(tree)
      ensures r.Failed? && tree != old(tree) ==>
        StringKey(key).Some? && tree == PutTree(old(tree), StringKey(key).value, StoredValue(value), apnd)
      ensures memory && !idx.feed.readOnly && idx.indexType != BytesIndex ==> (r.Done? <==> StringKey(key).Some?)
      ensures !idx.feed.readOnly && idx.feed.faults == old(idx.feed.faults) ==> (r.Done? <==> StringKey(key).Some?)
      ensures memory ==> idx.feed.blobs == old(idx.feed.blobs) && idx.tree == old(idx.tree)
      ensures r == Failed(ReadOnlyIndex) <==> idx.feed.readOnly
      ensures r == Failed(KeyNotANumber) <==> !idx.feed.readOnly && StringKey(key).None?
      ensures r == Failed(KeyNotANumber) <==>
        !idx.feed.readOnly && idx.indexType == NumberIndex && forall i :: IsInt64(i) ==> !Spells(key, i)
      ensures r.Done? && !memory && (old(memDb).None? || old(IsStored())) ==> IsStored()
    {
      hide RepEntry, ValidEntries, Leaves, Find, Contents, Spells, Kept;
      KeyAndValue(key, value);
      if idx.feed.readOnly {
        return Failed(ReadOnlyIndex);
      }
      if memDb.None? {
        memDb := Some(Manifest(idx.name, false, []));
        inMemory := memory;
      }
      var stringKey := key;
      if idx.indexType == NumberIndex {
        var i := ParseInt(key);
        if i.None? {
          return Failed(KeyNotANumber);
        }
        stringKey := FormatKey(i.value);
      }
      var stored := value;
      if idx.indexType == BytesIndex {
        var uploaded := idx.feed.Upload(value);
        if uploaded.Err? {
          return Failed(uploaded.error);
        }
        stored := uploaded.value;
      }
      r := PutKey(stringKey, stored, apnd, memory);
    }

    method PutKey(key: Str, value: Str, apnd: bool, memory: bool) returns (r: Outcome)
      requires Valid() && memDb.Some? && memory == inMemory
      modifies this`memDb, this`tree, idx`tree, idx.feed
      ensures Valid() && memDb.Some?
      ensures r.Failed? ==> IsIoError(r.error) && idx.feed.faults > old(idx.feed.faults)
      ensures idx.feed.faults >= old(idx.feed.faults)
      ensures r.Failed? ==> tree == old(tree) || tree == PutTree(old(tree), key, value, apnd)
      ensures memory ==> r.Done? && idx.feed.blobs == old(idx.feed.blobs) && idx.tree == old(idx.tree)
      ensures r.Done? ==> tree == PutTree(old(tree), key, value, apnd)
      ensures r.Done? ==> Map() == old(Map())[key := Kept(old(tree).entries, key, apnd) + [value]]
      ensures r.Done? && !memory && (old(memDb) == Some(Manifest(idx.name, false, [])) || old(IsStored())) ==> IsStored()
    {
      hide RepEntry, ValidEntries, Leaves, Find, Contents, Touch, PutAt, Interrupted, StoreAll, Writes, Root, Rep;
      ghost var s := idx.feed.blobs;
      if !memory {
        WritesRep(s, memDb.value, tree, key, value, apnd);
        RootUnwritten(s, memDb.value, tree, key, value, apnd);
        if memDb.value.entries == [] {
          EmptyIsRewritten(memDb.value, key, value, apnd);
        }
      }
      var m;
      r, m := idx.AddOrUpdateStringEntry(memDb.value, key, value, memory, apnd);
      PutIsMapUpdate(tree.name, tree.entries, key, value, apnd);
      if r.Done? || m != memDb.value {
        tree := PutTree(tree, key, value, apnd);
      }
      if r.Done? && !memory && idx.name in idx.feed.blobs && idx.feed.blobs[idx.name] == m {
        idx.tree := tree;
      }
      memDb := Some(m);
    }

    /** The batch answers from its map, before a write and after it; a loaded tree is answered
        from without reading the feed. */
    method Get(key: Str) returns (r: Result<Refs>)
      requires Readable()
      modifies idx.feed`faults
      ensures Readable() && (old(Valid()) ==> Valid())
      ensures memDb == Some(tree) ==> idx.feed.faults == old(idx.feed.faults)
      ensures r.Ok? ==> StringKey(key).Some? && StringKey(key).value in Map() && r.value == Map()[StringKey(key).value]
      ensures idx.feed.faults == old(idx.feed.faults) && StringKey(key).Some? ==>
        r == if StringKey(key).value in Map() then Ok(Map()[StringKey(key).value]) else Err(EntryNotFound)
      ensures idx.feed.faults == old(idx.feed.faults) && idx.indexType == NumberIndex ==> forall i :: IsInt64(i) && Spells(key, i) ==>
        r == if FormatKey(i) in Map() then Ok(Map()[FormatKey(i)]) else Err(EntryNotFound)
      ensures idx.feed.faults == old(idx.feed.faults) && idx.indexType != NumberIndex ==>
        r == if key in Map() then Ok(Map()[key]) else Err(EntryNotFound)
      ensures idx.feed.faults == old(idx.feed.faults) && StringKey(key).None? ==>
        r == Err(if tree.entries == [] then EntryNotFound else KeyNotANumber)
    {
      hide Spells;
      KeyAndValue(key, []);
      if memDb.None? {
        return Err(EntryNotFound);
      }
      if |memDb.value.entries| > 0 {
        var stringKey := key;
        if idx.indexType == NumberIndex {
          var i := ParseInt(key);
          if i.None? {
            return Err(KeyNotANumber);
          }
          stringKey := FormatKey(i.value);
        }
        LocateIsFind(idx.feed.blobs, memDb.value, tree, stringKey);
        LookupIsContents(tree.name, tree.entries, stringKey);
        var found := idx.FindManifest(memDb.value, stringKey, tree);
        if found.Err? {
          return Err(found.error);
        }
        var (manifest, i) := found.value;
        return Ok(manifest.entries[i].ref);
      }
      return Err(EntryNotFound);
    }

    // ----- Flushing one branch -----

    /** Stores a branch and its sub-branches, deepest first, and nothing else. A node at the depth
        limit is not stored if it has a sub-branch: the first sub-branch is cut out and stacked, and
        the node survives in the snapshots of its ancestors. */
    method StoreMemoryManifest(manifest: Manifest, depth: nat)
      returns (r: Outcome, m: Manifest, ghost cuts: seq<Manifest>)
      requires ValidTree(manifest)
      modifies this`manifestStack, this`storageCount, idx.feed
      ensures manifestStack == old(manifestStack) + cuts
      ensures PartPass(old(idx.feed.blobs), idx.feed.blobs, manifest, depth, cuts)
      ensures r.Done? ==> WholePass(old(idx.feed.blobs), idx.feed.blobs, m, manifest, depth, cuts)
      ensures r.Done? && depth < MAX_MANIFEST_DEPTH ==> manifest.name in idx.feed.blobs && idx.feed.blobs[manifest.name] == m
      ensures var j := FirstBranch(manifest.entries); depth >= MAX_MANIFEST_DEPTH && j < |manifest.entries| ==>
        && r.Done? && cuts == [manifest.entries[j].manifest.value] && idx.feed.blobs == old(idx.feed.blobs)
        && m == manifest.(entries := manifest.entries[j := manifest.entries[j].(manifest := None)])
      ensures idx.feed.faults >= old(idx.feed.faults)
      ensures r.Failed? ==> IsIoError(r.error) && idx.feed.faults > old(idx.feed.faults)
      decreases manifest, 1
    {
      hide Flushing, WholePass, PartPass;
      ghost var s := idx.feed.blobs;
      m, cuts := manifest, [];
      FlushStart(s, manifest, depth);
      for i := 0 to |manifest.entries|
        invariant Flushing(s, idx.feed.blobs, m, manifest, i, depth, cuts) && manifestStack == old(manifestStack) + cuts
        invariant idx.feed.faults >= old(idx.feed.faults)
      {
        FlushedSoFar(s, idx.feed.blobs, m, manifest, i, depth, cuts);
        var entry := m.entries[i];
        assert ValidEntry(manifest.name, entry);
        if entry.etype.IntermediateEntry? && entry.manifest.Some? {
          if depth >= MAX_MANIFEST_DEPTH {
            FlushLimit(s, idx.feed.blobs, m, manifest, i, depth, cuts);
            manifestStack := manifestStack + [entry.manifest.value];
            m := m.(entries := m.entries[i := entry.(manifest := None)]);
            cuts := [entry.manifest.value];
            WholeIsPart(s, idx.feed.blobs, m, manifest, depth, cuts);
            return Done, m, cuts;
          }
          r, m, cuts := StoreBranch(m, i, depth, manifest, old(manifestStack), cuts, s);
          if r.Failed? {
            return;
          }
        } else {
          FlushLeaf(s, idx.feed.blobs, m, manifest, i, depth, cuts);
        }
      }
      FlushedSoFar(s, idx.feed.blobs, m, manifest, |manifest.entries|, depth, cuts);
      FlushStore(s, idx.feed.blobs, m, manifest, depth, cuts);
      WholeIsPart(s, idx.feed.blobs[m.name := m], m, manifest, depth, cuts);
      r := idx.feed.Store(m);
      if r.Done? {
        storageCount := storageCount + 1;
      }
    }

    method StoreBranch(m: Manifest, i: nat, depth: nat, ghost t: Manifest, ghost stack: seq<Manifest>,
                       ghost cuts: seq<Manifest>, ghost s: Blobs)
      returns (r: Outcome, m': Manifest, ghost cuts': seq<Manifest>)
      requires ValidTree(t) && i < |t.entries| && t.entries[i].etype.IntermediateEntry? && depth < MAX_MANIFEST_DEPTH
      requires Flushing(s, idx.feed.blobs, m, t, i, depth, cuts) && manifestStack == stack + cuts
      modifies this`manifestStack, this`storageCount, idx.feed
      ensures r.Done? ==> Flushing(s, idx.feed.blobs, m', t, i + 1, depth, cuts')
      ensures PartPass(s, idx.feed.blobs, t, depth, cuts') && manifestStack == stack + cuts'
      ensures idx.feed.faults >= old(idx.feed.faults)
      ensures r.Failed? ==> IsIoError(r.error) && idx.feed.faults > old(idx.feed.faults)
      decreases t, 0
    {
      hide Flushing, WholePass, PartPass;
      FlushedSoFar(s, idx.feed.blobs, m, t, i, depth, cuts);
      var entry := m.entries[i];
      assert ValidEntry(t.name, entry);
      var child := entry.manifest.value;
      var child';
      ghost var more;
      r, child', more := StoreMemoryManifest(child, depth + 1);
      FlushNext(s, old(idx.feed.blobs), idx.feed.blobs, m, t, i, depth, cuts, child', more);
      cuts' := cuts + more;
      m' := m.(entries := m.entries[i := entry.(manifest := Some(child'))]);
    }

    // ----- Emptying the work stack -----

    /** A round that stores `now` has come to position `i`: what was stored represents its
        branch up to the cuts on the stack, and only nodes of the stored trees have changed. */
    ghost predicate Round(s0: Blobs, now: seq<Manifest>, i: nat)
      reads this, idx, idx.feed
    {
      && i <= |now| && Stackable(now) && Stackable(manifestStack) && NextRound(now[..i], manifestStack)
      && StoredRound(idx.feed.blobs, now, i, manifestStack)
      && OnlyStack(s0, idx.feed.blobs, now) && StoredStack(s0, idx.feed.blobs, now, manifestStack)
      && manifestStack == CutsOfRound(now[..i]) && idx.feed.blobs == s0 + StoredRoundOf(now[..i])
    }

    method StoreNext(manifest: Manifest, ghost s0: Blobs, ghost now: seq<Manifest>, ghost i: nat) returns (r: Outcome)
      requires Round(s0, now, i) && i < |now| && manifest == now[i]
      modifies this`manifestStack, this`storageCount, idx.feed
      ensures r.Done? ==> Round(s0, now, i + 1)
      ensures OnlyStack(s0, idx.feed.blobs, now) && CutStack(s0, idx.feed.blobs, now)
      ensures idx.feed.faults >= old(idx.feed.faults)
      ensures r.Failed? ==> IsIoError(r.error) && idx.feed.faults > old(idx.feed.faults)
    {
      hide Cut, Height, Whole, Within, OnlyStack, OnlyNodes, NextRound, Clipped, CutsOf, Stored, Shallow, StoredNode, StackAt,
        StoredRound, Apart, CutsOfRound, StoredRoundOf;
      ghost var before, stack := idx.feed.blobs, manifestStack;
      var m;
      ghost var cuts;
      r, m, cuts := StoreMemoryManifest(manifest, 0);
      FitsIsShallow(manifest);
      RoundTake(now, i);
      StackStep(s0, before, idx.feed.blobs, now, i);
      RoundStep(now, stack, cuts, i);
      StoredStackStep(s0, before, idx.feed.blobs, now, i, stack, cuts);
      StoredIsCut(s0, idx.feed.blobs, now, stack + cuts);
      if r.Done? {
        StoredStep(before, idx.feed.blobs, now, i, stack, cuts);
      }
    }

    /** Stores every stacked branch, and then whatever that has stacked in turn. */
    method EmptyManifestStack() returns (r: Outcome)
      requires Stackable(manifestStack)
      modifies this`manifestStack, this`storageCount, idx.feed
      ensures r.Done? ==> manifestStack == []
      ensures r.Done? ==> forall i :: 0 <= i < |old(manifestStack)| ==> Saved(idx.feed.blobs, old(manifestStack)[i])
      ensures OnlyStack(old(idx.feed.blobs), idx.feed.blobs, old(manifestStack))
      ensures CutStack(old(idx.feed.blobs), idx.feed.blobs, old(manifestStack))
      ensures r.Done? ==> SavedStack(old(idx.feed.blobs), idx.feed.blobs, old(manifestStack))
      ensures r.Done? ==> idx.feed.blobs == old(idx.feed.blobs) + StoredByFlush(old(manifestStack))
      ensures idx.feed.faults >= old(idx.feed.faults)
      ensures r.Failed? ==> IsIoError(r.error) && idx.feed.faults > old(idx.feed.faults)
      decreases StackHeight(manifestStack)
    {
      hide Cut, Height, Whole, Within, StoredTree, StoredRoundOf, CutsOfRound, StackAt, CutStack, SavedStack, OnlyStack, Shallow;
      var tempStack := manifestStack;
      ghost var s := idx.feed.blobs;
      manifestStack := [];
      RoundStart(s, tempStack);
      NothingChanged(s, tempStack);
      for i := 0 to |tempStack|
        invariant Round(s, tempStack, i)
        invariant idx.feed.faults >= old(idx.feed.faults)
      {
        r := StoreNext(tempStack[i], s, tempStack, i);
        if r.Failed? {
          return;
        }
      }
      assert tempStack[..|tempStack|] == tempStack;
      r := Done;
      ghost var before, next := idx.feed.blobs, manifestStack;
      if |manifestStack| > 0 {
        NextRoundIsLower(tempStack, next);
        r := EmptyManifestStack();
      }
      NothingChanged(before, []);
      StackRound(s, before, idx.feed.blobs, tempStack, next);
      StoredIsCut(s, before, tempStack, next);
      CutRounds(s, before, idx.feed.blobs, tempStack, next);
      if r.Done? {
        RoundIsSaved(before, idx.feed.blobs, tempStack, next);
        StackIsSaved(s, before, idx.feed.blobs, tempStack, next);
      }
    }

    // ----- Merging the batch into the stored root -----

    /** The batch root, with the branches of its first `i` entries let go. */
    ghost predicate LetGo(m: Manifest, i: nat)
      reads this`memDb
    {
      && memDb.Some? && memDb.value == m.(entries := memDb.value.entries) && |memDb.value.entries| == |m.entries|
      && (forall j :: 0 <= j < i && j < |m.entries| ==> memDb.value.entries[j] == Strip(m.entries[j]))
      && forall j :: i <= j < |m.entries| ==> memDb.value.entries[j] == m.entries[j]
    }

    /** Whatever has been let go, the batch root has its entries. */
    ghost predicate HasEntriesOf(m: Manifest)
      reads this`memDb
    {
      memDb.Some? && memDb.value == m.(entries := memDb.value.entries) && Alike(memDb.value.entries, m.entries)
    }

    lemma LetGoHasEntries(m: Manifest, i: nat)
      requires LetGo(m, i) && i <= |m.entries|
      ensures HasEntriesOf(m)
    {
      forall j | 0 <= j < |m.entries|
        ensures var e, f := memDb.value.entries[j], m.entries[j]; e.name == f.name && e.etype == f.etype && e.ref == f.ref
      {
        if j < i {
          assert memDb.value.entries[j] == Strip(m.entries[j]);
        }
      }
    }

    /** Adds the batch entries to the disk entries and stores the branches below them. */
    method MergeEntries(diskEntries: seq<Entry>, memManifest: Manifest) returns (r: Outcome, entries: seq<Entry>)
      requires manifestStack == [] && memDb == Some(memManifest) && Flushable(memManifest.name, memManifest.entries)
      modifies this`memDb, this`manifestStack, this`storageCount, idx.feed
      ensures idx.feed.faults >= old(idx.feed.faults)
      ensures r.Failed? ==> IsIoError(r.error) && idx.feed.faults > old(idx.feed.faults)
      ensures OnlyStack(old(idx.feed.blobs), idx.feed.blobs, Children(memManifest.entries))
      ensures CutStack(old(idx.feed.blobs), idx.feed.blobs, Children(memManifest.entries))
      ensures memManifest.entries == [] ==> idx.feed.blobs == old(idx.feed.blobs)
      ensures r.Done? ==> entries == Merged(diskEntries, memManifest.entries) && LetGo(memManifest, |memManifest.entries|)
      ensures r.Done? ==> Round(old(idx.feed.blobs), Children(memManifest.entries), |Children(memManifest.entries)|)
      ensures HasEntriesOf(memManifest)
    {
      hide Cut, StoredRoundOf, CutsOfRound, Strip, Rep, RepEntry, AddSorted, HasAncestor, Apart, Height, Clear, ValidEntries,
        Slot, Find, StoredTree, StoredNode, Whole, IsBelow, StackAt, InStack;
      ghost var s0, ms, kids := idx.feed.blobs, memManifest.entries, Children(memManifest.entries);
      assert ms[..|ms|] == ms;
      r, entries := Done, diskEntries;
      RoundStart(s0, kids);
      for i := 0 to |memManifest.entries|
        invariant r.Done? && entries == Merged(diskEntries, ms[..i])
        invariant Round(s0, kids, |Children(ms[..i])|) && LetGo(memManifest, i)
        invariant idx.feed.faults >= old(idx.feed.faults)
        invariant i == 0 ==> idx.feed.blobs == s0
      {
        assert ms[..i + 1][..i] == ms[..i];
        LetGoHasEntries(memManifest, i);
        entries := idx.AddEntryToManifestSortedLexicographically(entries, memManifest.entries[i]);
        r := StoreDirtyEntry(memManifest, i, s0);
        if r.Failed? {
          return;
        }
      }
      LetGoHasEntries(memManifest, |ms|);
      StoredIsCut(s0, idx.feed.blobs, kids, manifestStack);
    }

    /** Stores the branch below the batch entry at `i`, if it is one, and lets go of it. */
    method StoreDirtyEntry(memManifest: Manifest, i: nat, ghost s0: Blobs) returns (r: Outcome)
      requires Flushable(memManifest.name, memManifest.entries) && i < |memManifest.entries| && LetGo(memManifest, i)
      requires Round(s0, Children(memManifest.entries), |Children(memManifest.entries[..i])|)
      modifies this`memDb, this`manifestStack, this`storageCount, idx.feed
      ensures r.Done? ==> Round(s0, Children(memManifest.entries), |Children(memManifest.entries[..i + 1])|)
      ensures r.Done? ==> LetGo(memManifest, i + 1)
      ensures r.Failed? ==> memDb == old(memDb)
      ensures OnlyStack(s0, idx.feed.blobs, Children(memManifest.entries))
      ensures CutStack(s0, idx.feed.blobs, Children(memManifest.entries))
      ensures idx.feed.faults >= old(idx.feed.faults)
      ensures r.Failed? ==> IsIoError(r.error) && idx.feed.faults > old(idx.feed.faults)
    {
      hide Cut, StoredRoundOf, CutsOfRound, Rep, RepEntry, HasAncestor, Apart, Height, Clear, Stackable, Children,
        NextRound, StoredRound, ValidEntries, IsIoError;
      var dirtyEntry := memManifest.entries[i];
      ChildrenTake(memManifest.entries, i);
      r := Done;
      if dirtyEntry.etype.IntermediateEntry? && dirtyEntry.manifest.Some? {
        r := StoreNext(dirtyEntry.manifest.value, s0, Children(memManifest.entries), |Children(memManifest.entries[..i])|);
        if r.Failed? {
          return;
        }
      }
      memDb := Some(memDb.value.(entries := memDb.value.entries[i := Strip(dirtyEntry)]));
    }

    /** Merges the batch root into the root on disk, stores it, and empties the stack. */
    method MergeAndWriteManifest(diskManifest: Manifest, memManifest: Manifest) returns (r: Outcome, merged: Manifest)
      requires manifestStack == [] && memDb == Some(memManifest) && diskManifest.name == memManifest.name
      requires Flushable(memManifest.name, memManifest.entries)
      modifies this`memDb, this`manifestStack, this`storageCount, idx.feed
      ensures idx.feed.faults >= old(idx.feed.faults)
      ensures r.Failed? ==> IsIoError(r.error) && idx.feed.faults > old(idx.feed.faults)
      ensures SameBut(memManifest.name, Children(memManifest.entries), old(idx.feed.blobs), idx.feed.blobs)
      ensures SameAt(old(idx.feed.blobs), idx.feed.blobs, memManifest.name) ||
        (memManifest.name in idx.feed.blobs && idx.feed.blobs[memManifest.name] == MergedRoot(diskManifest, memManifest))
      ensures r.Done? ==> merged == MergedRoot(diskManifest, memManifest)
      ensures r.Done? && memManifest.entries != [] ==>
        && idx.feed.blobs ==
           (old(idx.feed.blobs) + StoredByFlush(Children(memManifest.entries)))[memManifest.name := merged]
      ensures HasEntriesOf(memManifest)
      ensures r.Done? && memManifest.entries == [] ==> idx.feed.blobs == old(idx.feed.blobs)
      ensures r.Done? && memManifest.entries != [] ==>
        memManifest.name in idx.feed.blobs && idx.feed.blobs[memManifest.name] == merged
      ensures r.Done? ==> forall k :: 0 <= k < |Children(memManifest.entries)| ==>
        Saved(idx.feed.blobs, Children(memManifest.entries)[k])
      ensures CutNodes(memManifest.name, Children(memManifest.entries), old(idx.feed.blobs), idx.feed.blobs)
      ensures r.Done? ==>
        WrittenNodes(memManifest.name, Children(memManifest.entries), old(idx.feed.blobs), idx.feed.blobs)
      ensures r.Done? ==> manifestStack == [] && memDb == Some(memManifest.(entries := StripAll(memManifest.entries)))
    {
      hide Cut, CutStack, CutNodes, StoredRoundOf, CutsOfRound, StoredByFlush, Rep, RepEntry, HasAncestor, Apart, Height, Merged;
      ghost var s0, es, name := idx.feed.blobs, memManifest.entries, memManifest.name;
      ghost var kids := Children(es);
      var entries;
      r, entries := MergeEntries(diskManifest.entries, memManifest);
      merged := Manifest(diskManifest.name, memManifest.mutable, StripAll(entries));
      ghost var s1 := idx.feed.blobs;
      KidsAreBelow(name, es);
      NothingChanged(s1, []);
      CutWrite(s0, s1, s1, s1, merged, es, []);
      if r.Failed? {
        return;
      }
      assert memDb.value.entries == StripAll(es);
      if |memManifest.entries| > 0 {
        r := idx.feed.Store(merged);
        if r.Failed? {
          return;
        }
      }
      ghost var s2, stack := idx.feed.blobs, manifestStack;
      RootStored(s0, s1, s2, merged, es, stack);
      assert kids[..|kids|] == kids;
      RootBetween(s0, merged, kids);
      r := EmptyManifestStack();
      FlushDone(s0, s2, idx.feed.blobs, name, es, stack);
      CutWrite(s0, s1, s2, idx.feed.blobs, merged, es, stack);
      if memManifest.entries == [] {
        NothingStacked(kids, stack);
        SameEverywhere(s2, idx.feed.blobs);
      }
      if r.Done? {
        RoundIsSaved(s2, idx.feed.blobs, kids, stack);
        WrittenRound(s0, s1, s2, idx.feed.blobs, merged, es, stack);
      }
    }

    // ----- Writing the batch -----

    /** What a batch must look like to be written: built in memory, or put on disk as it was built. */
    ghost predicate Writable()
      reads this, idx, idx.feed
    {
      && Valid() && idx.Mixed() && StripAll(idx.feed.blobs[idx.name].entries) == idx.feed.blobs[idx.name].entries
      && (memDb.Some? ==> inMemory || IsStored())
    }

    /** No lookup on disk reads under the name of a node of the batch. */
    ghost predicate DisturbsNothing()
      reads this, idx, idx.feed
    {
      idx.name in idx.feed.blobs && memDb.Some? &&
      Undisturbed(idx.feed.blobs, idx.feed.blobs[idx.name], idx.tree, Children(memDb.value.entries))
    }

    /** The tree that the root on disk stands for after a write: where nodes of the batch were stored
        over nodes that are read, it has the batch's. */
    ghost function OnDisk(s: Blobs, d: Manifest, mem: Manifest): Manifest
      reads idx.feed
      requires idx.name in s
    {
      Grafted(s, idx.feed.blobs, Children(mem.entries), s[idx.name], d)
    }

    /** The stored root answers as `d` does for every key but the empty one that an entry of `d`
        takes, and for every key that no entry of `t` takes. */
    ghost predicate PartlyWritten(d: Manifest, t: Manifest)
      reads idx, idx.feed
    {
      && idx.name in idx.feed.blobs
      && forall key :: (key != [] && Taker(d.entries, key).Some?) || Taker(t.entries, key).None? ==>
           Answer(idx.feed.blobs, idx.feed.blobs[idx.name], key) == RefsOf(Scan(d.entries, key))
    }

    /** Commits the batch. The stored root then holds the entries of the disk and of the batch, every
        child by name; it is no longer mutable; every branch of the batch is saved, and the batch can
        still be read. Beside the root, exactly those nodes of the batch are stored under their own
        names that the depth limit lets through. The root represents the merge of the batch with the tree on disk, in which nodes
        of the batch stand where they were stored over nodes that are read; that is the tree as it was
        if no name that is read on disk is the name of a node of the batch. The merge answers as the
        union of both exactly where no entry on disk takes a key of the batch and answers otherwise. If
        nothing was disturbed, a failed write leaves the old root, or one that answers as before every
        key that an entry on disk takes. */
    method Write() returns (r: Result<Manifest>)
      requires Writable()
      modifies this`memDb, this`manifestStack, this`storageCount, idx`tree, idx.feed
      ensures r.Ok? ==> tree == old(tree) && Readable() && (!old(inMemory) ==> Valid())
      ensures r.Ok? && old(tree).entries != [] ==>
        && idx.name in idx.feed.blobs && r.value == idx.feed.blobs[idx.name]
        && r.value == MergedRoot(old(idx.feed.blobs[idx.name]), old(memDb).value) && !r.value.mutable
        && forall k :: 0 <= k < |Children(old(memDb).value.entries)| ==>
             Saved(idx.feed.blobs, Children(old(memDb).value.entries)[k])
      ensures r.Ok? && old(tree).entries != [] ==> var kids := Children(old(memDb).value.entries);
        && idx.feed.blobs == (old(idx.feed.blobs) + StoredByFlush(kids))[idx.name := r.value]
        && forall n :: n in StoredByFlush(kids) <==> exists k :: 0 <= k < |kids| && Stores(kids[k], 0, n)
      ensures SameOutside(old(idx.feed.blobs), idx.feed.blobs, idx.name)
      ensures old(memDb).Some? ==>
        CutNodes(idx.name, Children(old(memDb).value.entries), old(idx.feed.blobs), idx.feed.blobs)
      ensures old(memDb).None? ==> memDb == None
      ensures old(memDb).Some? ==> HasEntriesOf(old(memDb).value)
      ensures r.Ok? && old(tree).entries != [] ==>
        && idx.Mixed() && idx.tree == MergedTree(OnDisk(old(idx.feed.blobs), old(idx.tree), old(memDb).value), old(tree))
        && (old(DisturbsNothing()) ==> OnDisk(old(idx.feed.blobs), old(idx.tree), old(memDb).value) == old(idx.tree))
      ensures r.Ok? && old(tree).entries != [] ==> var d := OnDisk(old(idx.feed.blobs), old(idx.tree), old(memDb).value);
        && (forall key ::
             RefsOf(Scan(idx.tree.entries, key)) == Union(RefsOf(Scan(d.entries, key)), Lookup(old(tree).entries, key))
             <==> MergesAsUnion(d.entries, old(tree).entries, key))
        && (idx.Answers() == Tree.Answers(d.entries) + old(Map()) <==>
            forall key :: key in old(Map()) ==> MergesAsUnion(d.entries, old(tree).entries, key))
        && (ValidTree(old(idx.tree)) ==> ValidTree(d))
        && (ValidTree(d) && Mergeable(d.entries, old(tree).entries) ==> idx.Valid(!old(inMemory)))
      ensures !old(inMemory) && old(memDb).Some? ==>
        old(DisturbsNothing()) && ValidTree(old(idx.tree)) && Mergeable(old(idx.tree).entries, old(tree).entries)
      ensures r.Ok? && old(tree).entries == [] ==> idx.feed.blobs == old(idx.feed.blobs) && idx.tree == old(idx.tree)
      ensures r.Err? ==> idx.tree == old(idx.tree)
      ensures r.Err? && !idx.feed.readOnly && old(memDb).Some? ==> IsIoError(r.error)
      ensures r.Err? && (old(memDb).None? || old(DisturbsNothing())) ==> idx.Mixed() || PartlyWritten(idx.tree, old(tree))
      ensures r == Err(ReadOnlyIndex) <==> idx.feed.readOnly
      ensures !idx.feed.readOnly ==> (r == Err(EntryNotFound) <==> old(memDb).None?)
      ensures !idx.feed.readOnly && old(memDb).Some? && idx.feed.faults == old(idx.feed.faults) ==> r.Ok?
    {
      hide Rep, RepEntry, ValidEntries, MixedEntries, Mergeable, Merged, StripAll, MergesAsUnion, Lookup, Contents, Leaves,
        Answer, Taker, Scan, Undisturbed, Saved, Tree.Answers, Grafted, WrittenNodes, StoredByFlush, Stores, SameBut, SameOutside, CutNodes;
      ghost var s0, d := idx.feed.blobs, idx.tree;
      ghost var disk, mem := s0[idx.name], if memDb.Some? then memDb.value else tree;
      if memDb.Some? {
        StartOfWrite();
        WritingIsFlushable(s0, disk, d, mem, tree, inMemory);
      }
      NothingOutside(idx.name, s0);
      NothingCut(idx.name, Children(mem.entries), s0);
      if idx.feed.readOnly {
        return Err(ReadOnlyIndex);
      }
      if memDb.None? {
        return Err(EntryNotFound);
      }
      var diskManifest := idx.feed.Load(memDb.value.name);
      if diskManifest.Err? {
        return Err(diskManifest.error);
      }
      var stored, merged := MergeAndWriteManifest(diskManifest.value, memDb.value);
      WriteIsBelow(idx.name, mem.entries, s0, idx.feed.blobs);
      if stored.Failed? {
        if Undisturbed(s0, disk, d, Children(mem.entries)) {
          forall key ensures (key != [] && Taker(d.entries, key).Some?) || Taker(tree.entries, key).None? ==>
            Answer(idx.feed.blobs, MergedRoot(disk, mem), key) == RefsOf(Scan(d.entries, key))
          {
            WriteFailed(s0, idx.feed.blobs, disk, d, mem, tree, inMemory, key);
          }
          WriteFailed(s0, idx.feed.blobs, disk, d, mem, tree, inMemory, []);
        }
        return Err(stored.error);
      }
      WriteDone(s0, idx.feed.blobs, disk, d, mem, tree, inMemory);
      forall n ensures n in StoredByFlush(Children(mem.entries)) <==>
        exists k :: 0 <= k < |Children(mem.entries)| && Stores(Children(mem.entries)[k], 0, n)
      {
        FlushStores(Children(mem.entries), n);
      }
      ghost var g := Grafted(s0, idx.feed.blobs, Children(mem.entries), disk, d);
      WriteIsUnion(g, tree);
      if !inMemory {
        FlatIsRepTree(idx.feed.blobs, memDb.value, tree);
        FlatIsRepTree(idx.feed.blobs, merged, MergedTree(g, tree));
      }
      if tree.entries != [] {
        idx.tree := MergedTree(g, tree);
      }
      return Ok(merged);
    }

    lemma StartOfWrite()
      requires Writable() && memDb.Some?
      ensures Writing(idx.feed.blobs, idx.feed.blobs[idx.name], idx.tree, memDb.value, tree, inMemory)
      ensures idx.feed.blobs[idx.name].name == memDb.value.name == idx.name
      ensures !inMemory ==> ValidTree(idx.tree) && Mergeable(idx.tree.entries, tree.entries)
    {
      if inMemory {
        assert memDb.value == tree;
      } else {
        MergeableSelf(tree.name, tree.entries);
      }
    }
  }
}
