/** The index proper: puts in both storage modes, lookup with early exit, delete. */
module Index {
  import opened Bytes
  import opened Tree
  import opened Insert
  import opened Listing
  import opened Remove
  import opened Deleting
  import opened Nodes
  import opened AfterFlush
  import opened Landings
  import opened Storage
  import opened Steps
  import opened DiskPut

  datatype IndexType = InvalidIndex | BytesIndex | StringIndex | NumberIndex | MapIndex | ListIndex | VectorIndex

  const SLASH: Byte := 47
  const DOT: Str := [46]

  class Index {
    const name: Str
    const mutable: bool
    const indexType: IndexType
    const feed: Feed
    var memDB: Option<Manifest>
    var count: nat

    /** The loaded tree that the stored manifests represent. */
    ghost var tree: Manifest

    /** The root is stored and represents `tree`; in the flat form every child is by name. */
    ghost predicate Valid(flat: bool)
      reads this, feed
    {
      && tree.name == name && ValidTree(tree)
      && name in feed.blobs && Rep(flat, feed.blobs, feed.blobs[name], tree)
    }

    /** The stored root represents `tree`, in which entries may share a first byte, as a merge can
        leave it. */
    ghost predicate Mixed()
      reads this, feed
    {
      && tree.name == name && MixedTree(tree)
      && name in feed.blobs && Rep(false, feed.blobs, feed.blobs[name], tree)
    }

    /** The map that lookups answer from; for a valid tree, the one it stands for. */
    ghost function Answers(): map<Str, Refs>
      reads this
    {
      Tree.Answers(tree.entries)
    }

    lemma ValidIsReadable(flat: bool)
      requires Valid(flat)
      ensures Mixed() && Answers() == Map()
    {
      ValidIsMixed(name, tree.entries);
      ValidAnswers(name, tree.entries);
      if flat {
        FlatIsRepTree(feed.blobs, feed.blobs[name], tree);
      }
    }

    /** The map from keys to value lists that the index stands for. */
    ghost function Map(): map<Str, Refs>
      reads this
    {
      Contents(Leaves(tree.entries))
    }

    /** The handle that opening an index gives: it caches the root as it was read. */
    constructor (name: Str, indexType: IndexType, feed: Feed, root: Manifest, ghost tree: Manifest)
      requires tree.name == name && MixedTree(tree)
      requires name in feed.blobs && feed.blobs[name] == root && Rep(false, feed.blobs, root, tree)
      ensures Mixed() && (ValidTree(tree) ==> Valid(false)) && this.tree == tree && memDB == Some(root)
      ensures this.name == name && this.mutable == root.mutable && this.indexType == indexType && this.feed == feed && count == 0
    {
      this.name, this.mutable, this.indexType, this.feed := name, root.mutable, indexType, feed;
      this.memDB, this.count, this.tree := Some(root), 0, tree;
    }

    /** Inserts into one node, keeping first bytes ascending. */
    method AddEntryToManifestSortedLexicographically(es: seq<Entry>, entryToAdd: Entry) returns (r: seq<Entry>)
      ensures r == AddSorted(es, entryToAdd)
    {
      hide InsertPosition;
      if |es| == 0 {
        return [entryToAdd];
      }
      if entryToAdd.name == [] {
        return [entryToAdd] + es;
      }
      var entries: seq<Entry> := [];
      var entryAdded := false;
      ghost var p := 0;
      for k := 0 to |es|
        invariant forall j :: 0 <= j < k ==>
          !(es[j].name == entryToAdd.name && es[j].etype == entryToAdd.etype && es[j].ref == entryToAdd.ref)
        invariant p <= k
        invariant forall j :: 0 <= j < p ==> Head(es[j].name) <= Head(entryToAdd.name)
        invariant entryAdded ==> p < k && Head(es[p].name) > Head(entryToAdd.name)
        invariant entryAdded ==> entries == es[..p] + [entryToAdd] + es[p..k]
        invariant !entryAdded ==> p == k && entries == es[..k]
      {
        var entry := es[k];
        if entry.name == entryToAdd.name && entry.etype == entryToAdd.etype && entry.ref == entryToAdd.ref {
          return es;
        }
        if entry.name == [] {
          entries := entries + [entry];
          if !entryAdded {
            p := k + 1;
          }
          continue;
        }
        if !entryAdded {
          if entry.name[0] > entryToAdd.name[0] {
            entries := entries + [entryToAdd];
            entryAdded := true;
          } else {
            p := k + 1;
          }
        }
        entries := entries + [entry];
      }
      InsertPositionIsUnique(es, entryToAdd.name, p);
      if !entryAdded {
        entries := entries + [entryToAdd];
      }
      return entries;
    }

    /** What a put leaves behind at one node: the in-memory tree, or the stored form of it. */
    ghost predicate After(memory: bool, m: Manifest, t: Manifest)
      reads feed
    {
      if memory then m == t else Rep(true, feed.blobs, m, t)
    }

    /** Builds the node below a split: the new leaf and the rest of the old entry. On disk
        the node is stored at once; in memory it keeps the old child by pointer. */
    method SplitNode(base: Str, entry: Entry, prefix: Str, entrySuffix: Str, keySuffix: Str, value: Str, memory: bool)
      returns (r: Outcome, newManifest: Manifest)
      modifies feed
      ensures newManifest == Pair(base + prefix, LeafOf(keySuffix, [value]), SplitRest(entry, entrySuffix, memory))
      ensures memory ==> r.Done? && feed.blobs == old(feed.blobs)
      ensures r.Done? ==> feed.faults == old(feed.faults)
      ensures r.Done? && !memory ==> feed.blobs == old(feed.blobs)[base + prefix := newManifest]
      ensures r.Failed? ==> IsIoError(r.error) && feed.blobs == old(feed.blobs) && feed.faults > old(feed.faults)
    {
      var entry1 := Entry(keySuffix, LeafEntry, [value], None);
      var entries := AddEntryToManifestSortedLexicographically([], entry1);
      var entry2 := if entry.etype.LeafEntry?
        then Entry(entrySuffix, LeafEntry, entry.ref, None)
        else Entry(entrySuffix, IntermediateEntry, [], if memory then entry.manifest else None);
      entries := AddEntryToManifestSortedLexicographically(entries, entry2);
      newManifest := Manifest(base + prefix, false, entries);
      r := Done;
      if !memory {
        r := feed.Store(newManifest);
      }
    }

    /** Turns the entry at `i`, a leaf or a branch, into a branch to a new node. */
    method SplitEntry(manifest: Manifest, i: nat, prefix: Str, entrySuffix: Str, keySuffix: Str, value: Str, memory: bool)
      returns (r: Outcome, m: Manifest)
      requires i < |manifest.entries|
      modifies feed
      ensures memory ==> r.Done? && feed.blobs == old(feed.blobs)
      ensures r.Done? ==> feed.faults == old(feed.faults)
      ensures r.Failed? ==>
        IsIoError(r.error) && feed.faults > old(feed.faults) && feed.blobs == old(feed.blobs) && m == manifest
      ensures r.Done? ==> var p := SplitAt(manifest, i, prefix, entrySuffix, keySuffix, value, memory);
        m == p.node && p.child.Some? && (!memory ==> feed.blobs == old(feed.blobs)[p.child.value.name := p.child.value])
    {
      var entry := manifest.entries[i];
      var newManifest;
      r, newManifest := SplitNode(manifest.name, entry, prefix, entrySuffix, keySuffix, value, memory);
      m := manifest;
      if r.Failed? {
        return;
      }
      m := manifest.(entries := manifest.entries[i :=
        Entry(prefix, IntermediateEntry, entry.ref, if memory then Some(newManifest) else entry.manifest)]);
    }

    /** What a put has done to the store, if it has gone through and if it has failed. */
    ghost predicate Effect(r: Outcome, s: Blobs, s': Blobs, ws: Option<seq<Manifest>>) {
      match r
      case Done => ws.Some? && s' == StoreAll(s, ws.value)
      case Failed(_) => s' == s || (ws.Some? && Interrupted(s, s', ws.value))
    }

    /** Puts the rest of the key into the child below the entry at `i`. */
    method DescendEntry(manifest: Manifest, i: nat, key: Str, value: Str, memory: bool, apnd: bool)
      returns (r: Outcome, m: Manifest)
      requires PutAt(manifest, key, value, apnd, memory).Descends? && PutAt(manifest, key, value, apnd, memory).i == i
      requires memory ==> ValidTree(manifest)
      modifies feed
      ensures feed.faults >= old(feed.faults)
      ensures memory ==> r.Done? && feed.blobs == old(feed.blobs) && m == PutTree(manifest, key, value, apnd)
      ensures !memory ==> m == manifest
      ensures !memory ==> Effect(r, old(feed.blobs), feed.blobs, Writes(old(feed.blobs), manifest, key, value, apnd))
      ensures r.Failed? ==>
        && IsIoError(r.error)
        && (feed.faults > old(feed.faults) ||
             (r.error == NoManifestFound && Writes(old(feed.blobs), manifest, key, value, apnd).None?))
      decreases |key|, 0
    {
      hide ValidEntries, PutAt;
      PutAtDescends(manifest, key, value, apnd, memory);
      SameDescent(manifest, key, value, apnd);
      var entry := manifest.entries[i];
      var keySuffix := key[|entry.name|..];
      m := manifest;
      var child: Manifest;
      if !memory {
        var loaded := feed.Load(manifest.name + entry.name);
        if loaded.Err? {
          return Failed(loaded.error), m;
        }
        child := loaded.value;
      } else {
        PutAtInMemory(manifest, key, value, apnd);
        child := entry.manifest.value;
      }
      var child';
      r, child' := AddOrUpdateStringEntry(child, keySuffix, value, memory, apnd);
      if memory {
        m := manifest.(entries := manifest.entries[i := entry.(manifest := Some(child'))]);
      }
    }

    /** The store once the new child of a split, if there is one, is stored. */
    static function WithChild(s: Blobs, child: Option<Manifest>): Blobs {
      if child.Some? then s[child.value.name := child.value] else s
    }

    /** The loop over the entries of one node: it updates or splits the entry that shares
        the key's first byte, or hands the rest of the key to the child below it. */
    method RewriteEntry(manifest: Manifest, key: Str, value: Str, memory: bool, apnd: bool)
      returns (r: Outcome, m: Manifest, entryAdded: bool, descended: bool)
      requires memory ==> ValidTree(manifest)
      modifies feed
      ensures feed.faults >= old(feed.faults)
      ensures memory ==> r.Done? && feed.blobs == old(feed.blobs)
      ensures descended <==> PutAt(manifest, key, value, apnd, memory).Descends?
      ensures descended && memory ==> m == PutTree(manifest, key, value, apnd)
      ensures descended && !memory ==>
        m == manifest && Effect(r, old(feed.blobs), feed.blobs, Writes(old(feed.blobs), manifest, key, value, apnd))
      ensures !descended && r.Done? && entryAdded ==>
        && m == PutAt(manifest, key, value, apnd, memory).node
        && (!memory ==> feed.blobs == WithChild(old(feed.blobs), PutAt(manifest, key, value, apnd, memory).child))
      ensures !descended && r.Done? && !entryAdded ==>
        && m == manifest && feed.blobs == old(feed.blobs)
        && PutAt(manifest, key, value, apnd, memory) ==
           Rewrites(None, manifest.(entries := AddSorted(manifest.entries, LeafOf(key, [value]))))
      ensures !descended && r.Failed? ==> m == manifest && feed.blobs == old(feed.blobs)
      ensures r.Failed? ==>
        && IsIoError(r.error)
        && (feed.faults > old(feed.faults) ||
             (descended && r.error == NoManifestFound && Writes(old(feed.blobs), manifest, key, value, apnd).None?))
      decreases |key|, 1
    {
      hide AddSorted, Writes, ValidEntries;
      r, m, entryAdded, descended := Done, manifest, false, false;
      for i := 0 to |manifest.entries|
        invariant r.Done? && !entryAdded && !descended && m == manifest
        invariant feed.blobs == old(feed.blobs) && feed.faults == old(feed.faults)
        invariant key == [] ==> i == 0
        invariant forall j :: 0 <= j < i ==> Head(manifest.entries[j].name) != Head(key)
      {
        var entry := manifest.entries[i];
        if key == [] {
          return;
        }
        if entry.etype.LeafEntry? && entry.name == key {
          SlotIsUnique(manifest.entries, key, i);
          var refs: Refs := [];
          if apnd {
            refs := entry.ref;
          }
          m := manifest.(entries := manifest.entries[i := entry.(ref := refs + [value])]);
          entryAdded := true;
          return;
        }
        var prefix, entrySuffix, keySuffix := LongestCommonPrefix(entry.name, key);
        if prefix == [] {
          continue;
        }
        SlotIsUnique(manifest.entries, key, i);
        PrefixParts(entry.name, key, prefix, entrySuffix, keySuffix);
        if entry.etype.IntermediateEntry? && entrySuffix == [] {
          descended := true;
          r, m := DescendEntry(manifest, i, key, value, memory, apnd);
          return;
        }
        entryAdded := true;
        r, m := SplitEntry(manifest, i, prefix, entrySuffix, keySuffix, value, memory);
        return;
      }
      SlotIsUnique(manifest.entries, key, |manifest.entries|);
    }

    /** Inserts or updates below one node, whatever is stored. In memory the loaded tree is
        updated; on disk, exactly the writes of the put are stored, or the first of them. */
    method AddOrUpdateStringEntry(manifest: Manifest, key: Str, value: Str, memory: bool, apnd: bool)
      returns (r: Outcome, m: Manifest)
      requires memory ==> ValidTree(manifest)
      modifies feed
      ensures feed.faults >= old(feed.faults)
      ensures memory ==> r.Done? && feed.blobs == old(feed.blobs) && m == PutTree(manifest, key, value, apnd)
      ensures !memory ==> Effect(r, old(feed.blobs), feed.blobs, Writes(old(feed.blobs), manifest, key, value, apnd))
      ensures !memory && r.Done? ==> m == Root(manifest, key, value, apnd)
      ensures r.Failed? ==> m == manifest || m == Root(manifest, key, value, apnd)
      ensures r.Failed? && m != manifest ==> AlmostStored(old(feed.blobs), feed.blobs, manifest, key, value, apnd)
      ensures r.Failed? ==>
        && IsIoError(r.error)
        && (feed.faults > old(feed.faults) ||
             (r.error == NoManifestFound && Writes(old(feed.blobs), manifest, key, value, apnd).None?))
      decreases |key|, 2
    {
      hide AddSorted, PutAt, Interrupted, StoreAll, ValidEntries;
      var entryAdded, descended;
      r, m, entryAdded, descended := RewriteEntry(manifest, key, value, memory, apnd);
      if r.Failed? || descended {
        return;
      }
      if !entryAdded {
        var entries := AddEntryToManifestSortedLexicographically(manifest.entries, LeafOf(key, [value]));
        m := manifest.(entries := entries);
      }
      if memory {
        PutAtInMemory(manifest, key, value, apnd);
      } else {
        WritesHere(old(feed.blobs), manifest, key, value, apnd);
        r := feed.Store(m);
      }
    }

    // ----- Put -----

    /** Lookups read none of the names that the put stores. */
    ghost predicate Unread(key: Str, value: Str, apnd: bool)
      reads this, feed
      requires name in feed.blobs
    {
      var ws := Writes(feed.blobs, feed.blobs[name], key, value, apnd);
      ws.Some? && forall w :: w in ws.value ==> w.name != name && !Reads(feed.blobs, feed.blobs[name], tree, w.name)
    }

    /** A put on disk stores exactly its writes, whatever is stored, and goes through exactly if all
        nodes on its way are stored. If lookups go the way of the put, the map is updated; if they
        read none of the names it stores, nothing that they see has changed. On a flat store the map
        is updated, or nothing any lookup can see has changed, even when the new child of a split was
        stored before the write that failed. */
    method Put(key: Str, value: Str, apnd: bool) returns (r: Outcome)
      modifies this`tree, feed
      ensures feed.faults >= old(feed.faults)
      ensures r.Done? ==> !feed.readOnly && mutable && name in old(feed.blobs)
      ensures name in old(feed.blobs) ==>
        Effect(r, old(feed.blobs), feed.blobs, Writes(old(feed.blobs), old(feed.blobs[name]), key, value, apnd))
      ensures name !in old(feed.blobs) ==> feed.blobs == old(feed.blobs)
      ensures !feed.readOnly && mutable && name in old(feed.blobs) && feed.faults == old(feed.faults) ==>
        (r.Done? <==> Writes(old(feed.blobs), old(feed.blobs[name]), key, value, apnd).Some?)
      ensures r == Failed(ReadOnlyIndex) <==> feed.readOnly
      ensures !feed.readOnly ==> (r == Failed(CannotModifyImmutableIndex) <==> !mutable)
      ensures r.Failed? ==> tree == old(tree)
      ensures r.Failed? && !feed.readOnly && mutable ==> IsIoError(r.error)
      ensures r.Failed? && !feed.readOnly && mutable && feed.faults == old(feed.faults) ==> r.error == NoManifestFound
      ensures old(Valid(false)) && r.Done? && Follows(old(feed.blobs), old(feed.blobs[name]), key) ==>
        && Valid(false) && SameOutside(old(feed.blobs), feed.blobs, name) && tree == PutTree(old(tree), key, value, apnd)
        && Map() == old(Map())[key := Kept(old(tree).entries, key, apnd) + [value]]
      ensures old(Mixed()) && r.Done? && old(Unread(key, value, apnd)) && !Follows(old(feed.blobs), old(feed.blobs[name]), key) ==>
        Mixed() && tree == old(tree)
      ensures old(Valid(true)) ==> Valid(true) && SameOutside(old(feed.blobs), feed.blobs, name)
      ensures old(Valid(true)) && r.Done? ==> tree == PutTree(old(tree), key, value, apnd)
      ensures old(Valid(true)) && r.Done? ==> Map() == old(Map())[key := Kept(old(tree).entries, key, apnd) + [value]]
      ensures old(Valid(true)) && !feed.readOnly && mutable && feed.faults == old(feed.faults) ==> r.Done?
    {
      hide Rep, Interrupted, StoreAll, PutAt, Contents, Leaves, ValidEntries, MixedEntries, Follows, Reads, Writes, Find, Insert.Put;
      ghost var s, flat := feed.blobs, Valid(true);
      if flat {
        FlatFollows(s, s[name], tree, key);
        FlatIsRepTree(s, s[name], tree);
      }
      ghost var followed := Valid(false) && Follows(s, s[name], key);
      ghost var unread := Mixed() && Unread(key, value, apnd);
      if feed.readOnly {
        return Failed(ReadOnlyIndex);
      }
      if !mutable {
        return Failed(CannotModifyImmutableIndex);
      }
      var loaded := feed.Load(name);
      if loaded.Err? {
        return Failed(loaded.error);
      }
      if flat {
        WritesRep(s, s[name], tree, key, value, apnd);
      }
      if followed {
        FollowedMap(s, tree, key, value, apnd, flat);
      }
      var m;
      r, m := AddOrUpdateStringEntry(loaded.value, key, value, false, apnd);
      if followed && r.Done? {
        tree := PutTree(tree, key, value, apnd);
      } else if unread && r.Done? {
        UnreadPut(s, Writes(s, s[name], key, value, apnd).value, tree, key);
      }
    }

    /** A put that lookups follow, seen as a map update. */
    static lemma FollowedMap(s: Blobs, t: Manifest, key: Str, value: Str, apnd: bool, flat: bool)
      requires t.name in s && Rep(flat, s, s[t.name], t) && Rep(false, s, s[t.name], t) && ValidTree(t)
      requires Follows(s, s[t.name], key)
      ensures Writes(s, s[t.name], key, value, apnd).Some?
      ensures var s', u := StoreAll(s, Writes(s, s[t.name], key, value, apnd).value), PutTree(t, key, value, apnd);
        && t.name in s' && SameOutside(s, s', t.name) && Rep(flat, s', s'[t.name], u) && Rep(false, s', s'[t.name], u)
        && ValidTree(u) && u.name == t.name
        && Contents(Leaves(u.entries)) == Contents(Leaves(t.entries))[key := Kept(t.entries, key, apnd) + [value]]
    {
      hide Rep, StoreAll, ValidEntries, Follows, Contents, Leaves, Writes, SameOutside;
      FollowedPut(s, t, key, value, apnd);
      PutIsMapUpdate(t.name, t.entries, key, value, apnd);
      PutIsUpdate(t.name, t.entries, key, value, apnd, key);
      if flat {
        WritesRep(s, s[t.name], t, key, value, apnd);
      }
    }

    static lemma UnreadPut(s: Blobs, ws: seq<Manifest>, t: Manifest, key: Str)
      requires t.name in s && Rep(false, s, s[t.name], t) && MixedTree(t)
      requires forall w :: w in ws ==> w.name != t.name && !Reads(s, s[t.name], t, w.name)
      ensures var s' := StoreAll(s, ws); t.name in s' && Rep(false, s', s'[t.name], t)
    {
      hide Rep, StoreAll, MixedEntries, Reads, Locate;
      forall n | n == t.name || Reads(s, s[t.name], t, n) ensures SameAt(s, StoreAll(s, ws), n) {
        StoredElsewhere(s, ws, n);
      }
      assert SameAt(s, StoreAll(s, ws), t.name);
      HiddenWrites(s, StoreAll(s, ws), t.name, t, key);
    }

    // ----- Get -----

    /** Walks down to the leaf that answers for `key`, stepping past entries that do not take it
        and giving up as soon as a larger first byte shows that the key cannot follow. */
    method FindManifest(parentManifest: Manifest, key: Str, ghost t: Manifest) returns (r: Result<(Manifest, nat)>)
      requires Rep(false, feed.blobs, parentManifest, t) && MixedTree(t)
      modifies feed`faults
      ensures feed.faults >= old(feed.faults)
      ensures r.Ok? ==> Locate(feed.blobs, parentManifest, key) == Some(r.value)
      ensures r == Err(EntryNotFound) ==> Locate(feed.blobs, parentManifest, key).None?
      ensures r.Err? && r.error != EntryNotFound ==> r.error == NoManifestFound && feed.faults > old(feed.faults)
      ensures parentManifest == t ==> feed.faults == old(feed.faults)
      decreases |key|
    {
      hide ValidEntries, Ordered, ScanSlot;
      for i := 0 to |parentManifest.entries|
        invariant feed.faults == old(feed.faults)
        invariant forall j :: 0 <= j < i ==>
          !Takes(parentManifest.entries[j], key) && Head(parentManifest.entries[j].name) <= Head(key)
      {
        var entry := parentManifest.entries[i];
        ghost var f := t.entries[i];
        assert ValidEntry(t.name, f) && RepEntry(false, feed.blobs, t.name, entry, f);
        if Takes(entry, key) || Head(entry.name) > Head(key) { ScanSlotIsUnique(parentManifest.entries, key, i); }
        if |entry.name| > 0 {
          if key == [] {
            return Err(EntryNotFound);
          }
          if entry.name[0] > key[0] {
            return Err(EntryNotFound);
          }
        }
        if entry.etype.LeafEntry? && entry.name == key {
          return Ok((parentManifest, i));
        }
        if entry.etype.IntermediateEntry? && entry.name <= key {
          var childKey := key[|entry.name|..];
          var childManifest: Manifest;
          if entry.manifest.None? {
            var loaded := feed.Load(parentManifest.name + entry.name);
            if loaded.Err? {
              return Err(loaded.error);
            }
            childManifest := loaded.value;
          } else {
            childManifest := entry.manifest.value;
          }
          ValidIsMixed(f.manifest.value.name, f.manifest.value.entries);
          r := FindManifest(childManifest, childKey, f.manifest.value);
          return;
        }
      }
      ScanSlotIsUnique(parentManifest.entries, key, |parentManifest.entries|);
      return Err(EntryNotFound);
    }

    /** Looks for the leaf of `key`, starting from the stored root. A root that cannot be
        read counts as an empty index. */
    method SeekManifestAndEntry(key: Str) returns (r: Result<(Manifest, nat)>)
      requires Mixed()
      modifies feed`faults
      ensures feed.faults >= old(feed.faults)
      ensures r.Ok? ==> Locate(feed.blobs, feed.blobs[name], key) == Some(r.value)
      ensures r.Err? ==> r.error in {EntryNotFound, NoManifestFound}
      ensures r.Err? && feed.faults == old(feed.faults) ==>
        r.error == EntryNotFound && Locate(feed.blobs, feed.blobs[name], key).None?
    {
      var fm := feed.Load(name);
      if fm.Ok? && |fm.value.entries| > 0 {
        r := FindManifest(fm.value, key, tree);
        return;
      }
      return Err(EntryNotFound);
    }

    /** Lookup answers from the map; only a failed read can make a stored key look absent. */
    method Get(key: Str) returns (r: Result<Refs>)
      requires Mixed()
      modifies feed`faults
      ensures Mixed() && (ValidTree(tree) ==> Answers() == Map())
      ensures feed.faults >= old(feed.faults)
      ensures r.Ok? ==> key in Answers() && r.value == Answers()[key]
      ensures feed.faults == old(feed.faults) ==> r == if key in Answers() then Ok(Answers()[key]) else Err(EntryNotFound)
    {
      hide ValidEntries, Tree.Answers, Contents, Leaves, Scan;
      LocateIsScan(feed.blobs, feed.blobs[name], tree, key);
      AnswersAreScans(name, tree.entries, key);
      if ValidTree(tree) {
        ValidAnswers(name, tree.entries);
      }
      var found := SeekManifestAndEntry(key);
      if found.Err? {
        return Err(found.error);
      }
      var (manifest, i) := found.value;
      return Ok(manifest.entries[i].ref);
    }

    // ----- Delete -----

    /** `filepath.Dir` and `filepath.Base` of a name without separators. */
    static function Dir(path: Str): Str
      requires SLASH !in path
    {
      DOT
    }

    static function Base(path: Str): Str
      requires SLASH !in path
    {
      if path == [] then DOT else path
    }

    /** The first branch of this name. */
    static function BranchNamed(es: seq<Entry>, name: Str): (j: nat)
      ensures j <= |es| && (j < |es| ==> es[j].etype.IntermediateEntry? && es[j].name == name)
      ensures forall k :: 0 <= k < j ==> !(es[k].etype.IntermediateEntry? && es[k].name == name)
    {
      if es == [] then 0
      else if es[0].etype.IntermediateEntry? && es[0].name == name then 0
      else 1 + BranchNamed(es[1..], name)
    }

    static lemma BranchIsUnique(es: seq<Entry>, name: Str, j: nat)
      requires j <= |es| && (j < |es| ==> es[j].etype.IntermediateEntry? && es[j].name == name)
      requires forall k :: 0 <= k < j ==> !(es[k].etype.IntermediateEntry? && es[k].name == name)
      ensures j == BranchNamed(es, name)
    {
    }

    /** Deletes all or nothing: the leaf is spliced out of the node that answers, which is stored
        under its own name. A key whose node would be left empty behind an empty name is refused,
        because the parent that the code computes is not stored. If the node is read under its own
        name, no other key's answer changes, and on a valid tree it is the delete on the tree; if
        it is read from its parent's snapshot, the delete goes unseen. On a flat store it is a
        removal from the map. */
    method Delete(key: Str) returns (r: Result<Refs>)
      requires Mixed() && SLASH !in name && SLASH !in key
      modifies this`tree, feed
      ensures feed.faults >= old(feed.faults)
      ensures r.Ok? ==> !feed.readOnly && mutable && key in old(Answers())
      ensures r.Err? ==> feed.blobs == old(feed.blobs) && tree == old(tree)
      ensures r == Err(ReadOnlyIndex) <==> feed.readOnly
      ensures !feed.readOnly ==> (r == Err(CannotModifyImmutableIndex) <==> !mutable)
      ensures !feed.readOnly && mutable && feed.faults == old(feed.faults) && DOT !in old(feed.blobs) ==>
        match Locate(old(feed.blobs), old(feed.blobs[name]), key)
        case None => r == Err(EntryNotFound) && key !in old(Answers())
        case Some(found) =>
          && key in old(Answers())
          && (r.Ok? <==> !(|found.0.entries| == 1 && found.0.entries[0].name == []))
          && (r.Err? ==> r.error == NoManifestFound)
      ensures r.Ok? && DOT !in old(feed.blobs) ==>
        && r.value == old(Answers())[key]
        && match Locate(old(feed.blobs), old(feed.blobs[name]), key)
           case None => false
           case Some(found) =>
             var (node, i) := found;
             && i < |node.entries|
             && feed.blobs == old(feed.blobs)[node.name := node.(entries := node.entries[..i] + node.entries[i + 1..])]
      ensures DOT !in old(feed.blobs) ==> Mixed() && SameOutside(old(feed.blobs), feed.blobs, name)
      ensures r.Ok? && DOT !in old(feed.blobs) ==>
        && tree == AfterDelete(old(feed.blobs), old(feed.blobs[name]), old(tree), key)
        && (Owned(old(feed.blobs), old(feed.blobs[name]), key, true) ==>
              forall k :: k != key ==> RefsOf(Scan(tree.entries, k)) == RefsOf(Scan(old(tree).entries, k)))
      ensures old(Valid(false)) && DOT !in old(feed.blobs) && r.Ok? ==>
        && Valid(false)
        && tree == if Owned(old(feed.blobs), old(feed.blobs[name]), key, true) then RemoveTree(old(tree), key) else old(tree)
      ensures old(Valid(true)) && DOT !in old(feed.blobs) ==> Valid(true) && old(Answers()) == old(Map())
      ensures old(Valid(true)) && DOT !in old(feed.blobs) && r.Ok? ==>
        && !SoleEmpty(old(tree).entries, key) && tree == RemoveTree(old(tree), key)
        && (forall k :: k != key ==> Lookup(tree.entries, k) == Lookup(old(tree).entries, k))
        && (OneEmpty(old(tree).entries) ==> Map() == old(Map()) - {key} && OneEmpty(tree.entries))
      ensures old(Valid(true)) && !feed.readOnly && mutable && feed.faults == old(feed.faults) && DOT !in old(feed.blobs) ==>
        (r == Err(NoManifestFound) <==> SoleEmpty(old(tree).entries, key))
    {
      hide RepEntry, ValidEntries, MixedEntries, Leaves, Find, Slot, Contents, Scan, Tree.Answers, Locate, Rep, Owned, AfterDelete, Spliced;
      ghost var s, flat := feed.blobs, Valid(true);
      LocateIsScan(s, s[name], tree, key);
      AnswersAreScans(name, tree.entries, key);
      if flat {
        ValidIsReadable(true);
        LocateIsFind(s, s[name], tree, key);
      }
      if feed.readOnly {
        return Err(ReadOnlyIndex);
      }
      if !mutable {
        return Err(CannotModifyImmutableIndex);
      }
      var found := SeekManifestAndEntry(key);
      if found.Err? {
        return Err(found.error);
      }
      var (manifest, i) := found.value;
      var deletedRef := manifest.entries[i].ref;
      if |manifest.entries| == 1 && manifest.entries[0].name == [] {
        NoSlash(name, key, manifest.name);
        r := CollapseBranch(manifest, deletedRef);
        return;
      }
      var m := manifest.(entries := Without(manifest.entries, i));
      var stored := feed.Store(m);
      if stored.Failed? {
        return Err(stored.error);
      }
      ghost var s', t := feed.blobs, AfterDelete(s, s[name], tree, key);
      assert s' == Spliced(s, s[name], key) by { SplicedNode(s, s[name], key, manifest, i); }
      Deleted(s, tree, key, flat);
      tree := t;
      return Ok(deletedRef);
    }

    static lemma SplicedNode(s: Blobs, m: Manifest, key: Str, node: Manifest, i: nat)
      requires Locate(s, m, key) == Some((node, i)) && i < |node.entries|
      ensures Spliced(s, m, key) == s[node.name := node.(entries := Without(node.entries, i))]
    {
    }

    /** What a delete has made of the index. */
    static lemma Deleted(s: Blobs, t: Manifest, key: Str, flat: bool)
      requires t.name in s && Rep(flat, s, s[t.name], t) && MixedTree(t) && Locate(s, s[t.name], key).Some?
      requires flat ==> ValidTree(t)
      ensures var (m, s') := (s[t.name], Spliced(s, s[t.name], key)); var u := AfterDelete(s, m, t, key);
        && t.name in s' && Rep(flat, s', s'[t.name], u) && Rep(false, s', s'[t.name], u)
        && MixedTree(u) && u.name == t.name && SameOutside(s, s', t.name)
        && (Owned(s, m, key, true) ==> forall k :: k != key ==> RefsOf(Scan(u.entries, k)) == RefsOf(Scan(t.entries, k)))
        && (ValidTree(t) ==> ValidTree(u) && u == if Owned(s, m, key, true) then RemoveTree(t, key) else t)
        && (flat ==>
              && u == RemoveTree(t, key)
              && (forall k :: k != key ==> Lookup(u.entries, k) == Lookup(t.entries, k))
              && (OneEmpty(t.entries) ==>
                    Contents(Leaves(u.entries)) == Contents(Leaves(t.entries)) - {key} && OneEmpty(u.entries)))
    {
      hide RepEntry, ValidEntries, MixedEntries, Leaves, Find, Slot, Contents, Scan, Locate, Rep, Owned, AfterDelete, Spliced, SameOutside;
      if flat {
        FlatIsRepTree(s, s[t.name], t);
        LocateIsFind(s, s[t.name], t, key);
        RemoveRep(true, s, t, key);
        RemoveIsMapRemoval(t.name, t.entries, key);
      }
      DeletedRep(s, t, key);
      if ValidTree(t) {
        ValidDelete(s, t, key);
        RemoveIsValid(t.name, t.entries, key);
      }
      if Owned(s, s[t.name], key, true) {
        forall k | k != key
          ensures RefsOf(Scan(AfterDelete(s, s[t.name], t, key).entries, k)) == RefsOf(Scan(t.entries, k))
        {
          OwnedDelete(s, t, key, k);
        }
      }
    }

    /** Removes the entry of a node from what the code takes for its parent. */
    method CollapseBranch(manifest: Manifest, ref: Refs) returns (r: Result<Refs>)
      requires SLASH !in manifest.name
      modifies feed
      ensures feed.faults >= old(feed.faults)
      ensures r.Ok? ==> DOT in old(feed.blobs)
      ensures r.Err? ==> IsIoError(r.error) && feed.blobs == old(feed.blobs)
      ensures r.Err? && DOT !in old(feed.blobs) ==> r.error == NoManifestFound
      ensures r.Ok? ==>
        var p := old(feed.blobs[DOT]);
        var j := BranchNamed(p.entries, if manifest.name == [] then DOT else manifest.name);
        && r.value == (if j < |p.entries| then p.entries[j].ref else ref)
        && feed.blobs == old(feed.blobs)[p.name :=
             if j < |p.entries| then p.(entries := p.entries[..j] + p.entries[j + 1..]) else p]
    {
      var deletedRef := ref;
      var parentEntryKey := Base(manifest.name);
      var parent := feed.Load(Dir(manifest.name));
      if parent.Err? {
        return Err(parent.error);
      }
      var parentManifest := parent.value;
      ghost var at := |parentManifest.entries|;
      for j := 0 to |parentManifest.entries|
        invariant parentManifest == parent.value && deletedRef == ref && at == |parentManifest.entries|
        invariant forall k :: 0 <= k < j ==>
          !(parentManifest.entries[k].etype.IntermediateEntry? && parentManifest.entries[k].name == parentEntryKey)
      {
        var entry := parentManifest.entries[j];
        if entry.etype.IntermediateEntry? && entry.name == parentEntryKey {
          deletedRef := entry.ref;
          parentManifest := parentManifest.(entries := Without(parentManifest.entries, j));
          at := j;
          break;
        }
      }
      BranchIsUnique(parent.value.entries, parentEntryKey, at);
      var updated := feed.Store(parentManifest);
      if updated.Failed? {
        return Err(updated.error);
      }
      return Ok(deletedRef);
    }

    lemma NoSlash(name: Str, key: Str, path: Str)
      requires SLASH !in name && SLASH !in key && path <= name + key
      ensures SLASH !in path
    {
      forall i | 0 <= i < |path| ensures path[i] != SLASH {
        assert path[i] == (name + key)[i];
      }
    }

    // ----- Count -----

    /** Counts below a branch, loading its child first unless it is cached. */
    method CountBranch(base: Str, entry: Entry, ghost f: Entry) returns (r: Option<Entry>)
      requires RepEntry(false, feed.blobs, base, entry, f) && ValidEntry(base, f) && f.etype.IntermediateEntry?
      modifies this`count, feed`faults
      ensures feed.faults >= old(feed.faults)
      ensures r.None? ==> count == old(count) && feed.faults > old(feed.faults)
      ensures r.Some? ==> RepEntry(false, feed.blobs, base, r.value, f)
      ensures old(count) <= count <= old(count) + |EntryLeaves(f)|
      ensures feed.faults == old(feed.faults) ==> r == Some(f) && count == old(count) + |EntryLeaves(f)|
      decreases f, 0
    {
      var newManifest: Manifest;
      if entry.manifest.None? {
        var loaded := feed.Load(base + entry.name);
        if loaded.Err? {
          return None;
        }
        newManifest := loaded.value;
      } else {
        newManifest := entry.manifest.value;
      }
      ValidIsMixed(f.manifest.value.name, f.manifest.value.entries);
      newManifest := LoadIndexAndCount(newManifest, f.manifest.value);
      return Some(entry.(manifest := Some(newManifest)));
    }

    /** Counts the leaves below one node and caches every child it loads. A child that cannot
        be loaded stops the count of its node without an error. */
    method LoadIndexAndCount(manifest: Manifest, ghost t: Manifest) returns (m: Manifest)
      requires Rep(false, feed.blobs, manifest, t) && MixedTree(t)
      modifies this`count, feed`faults
      ensures feed.faults >= old(feed.faults)
      ensures Rep(false, feed.blobs, m, t)
      ensures old(count) <= count <= old(count) + |Leaves(t.entries)|
      ensures feed.faults == old(feed.faults) ==> m == t && count == old(count) + |Leaves(t.entries)|
      decreases t, 1
    {
      hide EntryLeaves, RepEntry, ValidEntry, MixedEntries, Leaves;
      ghost var s := feed.blobs;
      m := manifest;
      var leaves := 0;
      LeavesOfTake(t.entries, |t.entries|);
      LeavesOfTake(t.entries, 0);
      for i := 0 to |manifest.entries|
        invariant Rep(false, s, m, t)
        invariant feed.faults >= old(feed.faults) && count >= old(count)
        invariant forall j :: i <= j < |m.entries| ==> m.entries[j] == manifest.entries[j]
        invariant count + leaves <= old(count) + |Leaves(t.entries[..i])|
        invariant feed.faults == old(feed.faults) ==>
          (forall j :: 0 <= j < i ==> m.entries[j] == t.entries[j]) && count + leaves == old(count) + |Leaves(t.entries[..i])|
      {
        var entry := manifest.entries[i];
        ghost var f := t.entries[i];
        EntryOfRep(s, m, t, i);
        LeavesOfTake(t.entries, i);
        LeavesOfTake(t.entries, i + 1);
        if entry.etype.IntermediateEntry? {
          var counted := CountBranch(manifest.name, entry, f);
          if counted.None? {
            return;
          }
          CachedRep(s, m, t, i, counted.value);
          m := m.(entries := m.entries[i := counted.value]);
        } else {
          leaves := leaves + 1;
        }
      }
      count := count + leaves;
      assert feed.faults == old(feed.faults) ==> m.entries == t.entries;
    }

    /** The number of leaves, if every node could be read: on a fresh handle to a valid tree with
        no shadowed leaf, the number of keys. */
    method CountIndex() returns (r: Result<nat>)
      requires Mixed()
      requires memDB.Some? ==> Rep(false, feed.blobs, memDB.value, tree)
      modifies this`count, this`memDB, feed`faults
      ensures Mixed() && (memDB.Some? ==> Rep(false, feed.blobs, memDB.value, tree))
      ensures r.Ok? ==> r.value <= |Leaves(tree.entries)| && (tree.entries != [] ==> r.value == count)
      ensures feed.faults == old(feed.faults) ==> memDB == Some(tree)
      ensures feed.faults == old(feed.faults) ==> r == Ok(|Leaves(tree.entries)|)
      ensures feed.faults == old(feed.faults) && ValidTree(tree) && OneEmpty(tree.entries) ==> r == Ok(|Map()|)
    {
      hide ValidEntry, Less, EntryLeaves, Contents;
      if ValidTree(tree) && OneEmpty(tree.entries) {
        LeavesAscend(name, tree.entries);
        CountIsKeys(Leaves(tree.entries));
      }
      if memDB.None? || |memDB.value.entries| == 0 {
        var manifest := feed.Load(name);
        if manifest.Err? {
          return Err(manifest.error);
        }
        memDB := Some(manifest.value);
      }
      if |memDB.value.entries| == 0 {
        return Ok(0);
      }
      count := 0;
      var m := LoadIndexAndCount(memDB.value, tree);
      memDB := Some(m);
      return Ok(count);
    }
  }

  // ----- Creating and opening an index -----

  /** Creates an empty root, unless one is there already. */
  method CreateIndex(feed: Feed, name: Str, mutable: bool) returns (r: Outcome)
    modifies feed
    ensures feed.readOnly <==> r == Failed(ReadOnlyIndex)
    ensures r.Done? ==> feed.blobs == old(feed.blobs)[name := Manifest(name, mutable, [])]
    ensures r.Done? && feed.faults == old(feed.faults) ==> name !in old(feed.blobs)
    ensures r.Failed? ==> feed.blobs == old(feed.blobs)
    ensures feed.faults == old(feed.faults) && !feed.readOnly ==> (r.Done? <==> name !in old(feed.blobs))
  {
    if feed.readOnly {
      return Failed(ReadOnlyIndex);
    }
    var present := feed.Load(name);
    if present.Ok? {
      return Failed(IndexAlreadyPresent);
    }
    r := feed.Store(Manifest(name, mutable, []));
  }

  /** Opens a stored index. Whether it may be modified is what its root manifest says. */
  method OpenIndex(feed: Feed, name: Str, indexType: IndexType, ghost tree: Manifest) returns (r: Result<Index>)
    requires name in feed.blobs ==> tree.name == name && MixedTree(tree) && Rep(false, feed.blobs, feed.blobs[name], tree)
    modifies feed`faults
    ensures r.Ok? ==> fresh(r.value) && r.value.Mixed() && (ValidTree(tree) ==> r.value.Valid(false))
    ensures r.Ok? ==> r.value.feed == feed && r.value.name == name
    ensures r.Ok? ==> r.value.indexType == indexType && r.value.tree == tree && r.value.mutable == tree.mutable
    ensures r.Ok? ==> r.value.memDB == Some(feed.blobs[name]) && r.value.count == 0
    ensures feed.faults == old(feed.faults) ==> (r.Ok? <==> name in feed.blobs)
    ensures r.Err? ==> r.error == IndexNotPresent
  {
    var manifest := feed.Load(name);
    if manifest.Err? {
      return Err(IndexNotPresent);
    }
    var idx := new Index(name, indexType, feed, manifest.value, tree);
    return Ok(idx);
  }
}
