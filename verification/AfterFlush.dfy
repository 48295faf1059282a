/** Puts on disk into an index that a flush has written, where a node can be embedded in its
    parent's snapshot and be stored under its own name as well. */
module AfterFlush {
  import opened Bytes
  import opened Tree
  import opened Insert
  import opened Storage
  import opened Nodes
  import opened Remove
  import opened Steps
  import opened DiskPut
  import opened Flush
  import opened Merge
  import opened Crash

  // ----- What is read -----

  /** Writes under names that no lookup reads change no answer. */
  lemma HiddenWrites(s: Blobs, s': Blobs, root: Str, t: Manifest, key: Str)
    requires root in s && root in s' && s'[root] == s[root] && Rep(false, s, s[root], t) && MixedTree(t)
    requires forall n :: Reads(s, s[root], t, n) ==> SameAt(s, s', n)
    ensures Rep(false, s', s'[root], t) && SameAnswer(s, s', s[root], s'[root], key)
  {
    UnreadIsHidden(false, s, s', s[root], t);
    SameAnswers(s, s', s[root], s[root], t, key);
  }

  /** A branch of the root that a flush has stored in one piece, and that the root has by name. */
  predicate Flushed(s: Blobs, m: Manifest, t: Manifest, i: nat) {
    && Rep(false, s, m, t) && ValidTree(t) && i < |t.entries| && t.entries[i].manifest.Some?
    && m.entries[i].manifest.None? && Whole(s, t.entries[i].manifest.value)
  }

  /** Every branch that a write has saved and that is low enough to be stored in one piece. */
  lemma SavedIsFlushed(s: Blobs, m: Manifest, t: Manifest, i: nat)
    requires Rep(false, s, m, t) && ValidTree(t) && StripAll(m.entries) == m.entries
    requires i < |t.entries| && t.entries[i].manifest.Some?
    requires Saved(s, t.entries[i].manifest.value) && Shallow(t.entries[i].manifest.value)
    ensures Flushed(s, m, t, i)
  {
    assert m.entries[i] == StripAll(m.entries)[i];
  }

  /** Of all names at and below such a branch, exactly the name of the branch itself is read: what
      lies below it is read from its snapshot. */
  lemma FlushedIsReadOnce(s: Blobs, m: Manifest, t: Manifest, i: nat, name: Str)
    requires Flushed(s, m, t, i) && t.name + t.entries[i].name <= name
    ensures Reads(s, m, t, name) <==> name == t.name + t.entries[i].name
  {
    assert ValidEntry(t.name, t.entries[i]) && RepEntry(false, s, t.name, m.entries[i], t.entries[i]);
    if name == t.name + t.entries[i].name {
      assert ReadsChild(t.name, m.entries[i], name);
    }
    forall j | 0 <= j < |t.entries| && t.entries[j].manifest.Some? && name != t.name + t.entries[i].name
      ensures !ReadsChild(t.name, m.entries[j], name)
      ensures !Reads(s, Child(s, t.name, m.entries[j]).value, t.entries[j].manifest.value, name)
    {
      var e, f := m.entries[j], t.entries[j];
      assert ValidEntry(t.name, f) && RepEntry(false, s, t.name, e, f);
      if j == i {
        LoadedReadsNothing(s, f.manifest.value, name);
      } else {
        ApartByHead(t.name, f.name, t.entries[i].name);
        PrefixesAreNested(t.name + f.name, t.name + t.entries[i].name, name);
        ReadBeside(s, t, e, f, name);
      }
    }
  }

  lemma ReadBeside(s: Blobs, t: Manifest, e: Entry, f: Entry, name: Str)
    requires ValidEntry(t.name, f) && RepEntry(false, s, t.name, e, f) && f.manifest.Some? && !(t.name + f.name <= name)
    ensures !Reads(s, Child(s, t.name, e).value, f.manifest.value, name)
  {
    var d := f.manifest.value;
    ValidIsMixed(d.name, d.entries);
    if HasNode(d, name) {
      NodeStarts(t.name, f, name);
    }
    UnreachedIsUnread(false, s, Child(s, t.name, e).value, d, name);
  }

  /** An on-disk put into a tree that is stored whole reaches the nodes under their own names, and
      stores names at and below the tree's only. */
  lemma {:induction false} WholeWrites(s: Blobs, t: Manifest, key: Str, value: Str, apnd: bool)
    requires Whole(s, t) && ValidTree(t)
    ensures Writes(s, t, key, value, apnd).Some?
    ensures forall w :: w in Writes(s, t, key, value, apnd).value ==> t.name <= w.name
    decreases t
  {
    hide AddSorted, Slot, Pair;
    var p := PutAt(t, key, value, apnd, false);
    if p.Descends? {
      PutAtDescends(t, key, value, apnd, false);
      var f := t.entries[p.i];
      assert ValidEntry(t.name, f);
      WholeWrites(s, f.manifest.value, p.rest, value, apnd);
      forall w | w in Writes(s, t, key, value, apnd).value ensures t.name <= w.name {
        PrefixTransitive(t.name, f.name, w.name);
      }
    } else if p.child.Some? {
      SplitChildName(t, key, value, apnd);
    }
  }

  lemma SplitChildName(m: Manifest, key: Str, value: Str, apnd: bool)
    requires PutAt(m, key, value, apnd, false).Rewrites? && PutAt(m, key, value, apnd, false).child.Some?
    ensures m.name < PutAt(m, key, value, apnd, false).child.value.name
  {
  }

  /** The put goes to the flushed branch, with the rest of the key. */
  predicate GoesInto(t: Manifest, i: nat, key: Str) {
    i < |t.entries| && t.entries[i].etype.IntermediateEntry? && t.entries[i].name != [] && t.entries[i].name <= key
    && Slot(t.entries, key) == i
  }

  lemma WritesInto(s: Blobs, m: Manifest, t: Manifest, i: nat, key: Str, value: Str, apnd: bool)
    requires Flushed(s, m, t, i) && GoesInto(t, i, key)
    ensures var f := t.entries[i]; var d := f.manifest.value;
      && d.name == t.name + f.name && ValidTree(d) && d.name in s && s[d.name] == d
      && Writes(s, m, key, value, apnd) == Writes(s, d, key[|f.name|..], value, apnd)
  {
    var f := t.entries[i];
    assert ValidEntry(t.name, f) && RepEntry(false, s, t.name, m.entries[i], f);
    SlotOfRep(false, s, m, t, key);
    CommonLengthIsUnique(f.name, key, |f.name|);
  }

  /** After a flush, an on-disk put that goes on below a sub-branch of the branch stores names
      strictly below the branch, and goes unseen: every key answers as before. */
  lemma PutBelowIsHidden(s: Blobs, t: Manifest, i: nat, put: Str, value: Str, apnd: bool, key: Str)
    requires t.name in s && Flushed(s, s[t.name], t, i) && GoesInto(t, i, put)
    requires PutAt(t.entries[i].manifest.value, put[|t.entries[i].name|..], value, apnd, false).Descends?
    ensures Writes(s, s[t.name], put, value, apnd).Some?
    ensures forall w :: w in Writes(s, s[t.name], put, value, apnd).value ==> t.name + t.entries[i].name < w.name
    ensures var s' := StoreAll(s, Writes(s, s[t.name], put, value, apnd).value);
      && t.name in s' && s'[t.name] == s[t.name] && Rep(false, s', s'[t.name], t)
      && SameAnswer(s, s', s[t.name], s'[t.name], key)
  {
    hide PutAt, Reads, SameAnswer, Rep;
    WritesInto(s, s[t.name], t, i, put, value, apnd);
    var d, rest := t.entries[i].manifest.value, put[|t.entries[i].name|..];
    PutAtDescends(d, rest, value, apnd, false);
    var p := PutAt(d, rest, value, apnd, false);
    var f := d.entries[p.i];
    assert ValidEntry(d.name, f);
    WholeWrites(s, f.manifest.value, p.rest, value, apnd);
    var ws := Writes(s, s[t.name], put, value, apnd).value;
    forall w | w in ws ensures d.name < w.name {
      PrefixTransitive(d.name, f.name, w.name);
    }
    var s' := StoreAll(s, ws);
    forall n | !(d.name < n) ensures SameAt(s, s', n) {
      StoredElsewhere(s, ws, n);
    }
    forall n | Reads(s, s[t.name], t, n) ensures SameAt(s, s', n) {
      if d.name < n {
        FlushedIsReadOnce(s, s[t.name], t, i, n);
      }
    }
    assert t.name <= d.name && SameAt(s, s', t.name);
    HiddenWrites(s, s', t.name, t, key) by {
      FlushedIsMixed(s, s[t.name], t, i);
    }
  }

  lemma FlushedIsMixed(s: Blobs, m: Manifest, t: Manifest, i: nat)
    requires Flushed(s, m, t, i)
    ensures Rep(false, s, m, t) && MixedTree(t)
  {
    ValidIsMixed(t.name, t.entries);
  }

  lemma {:induction false} StoredElsewhere(s: Blobs, ws: seq<Manifest>, n: Str)
    requires forall w :: w in ws ==> w.name != n
    ensures SameAt(s, StoreAll(s, ws), n)
    decreases ws
  {
    if ws != [] {
      StoredElsewhere(s[ws[0].name := ws[0]], ws[1..], n);
    }
  }

  /** A put that rewrites the branch's own node, and does not split a sub-branch embedded in it, is
      seen: the store then stands for the put on the tree. */
  lemma PutAtBranchIsSeen(s: Blobs, t: Manifest, i: nat, put: Str, value: Str, apnd: bool)
    requires t.name in s && Flushed(s, s[t.name], t, i) && GoesInto(t, i, put)
    requires var d, rest := t.entries[i].manifest.value, put[|t.entries[i].name|..];
      var p := PutAt(d, rest, value, apnd, false);
      p.Rewrites? && (p.child.Some? ==> d.entries[Slot(d.entries, rest)].etype.LeafEntry?)
    ensures Writes(s, s[t.name], put, value, apnd).Some?
    ensures var s' := StoreAll(s, Writes(s, s[t.name], put, value, apnd).value);
      t.name in s' && s'[t.name] == s[t.name] && Rep(false, s', s'[t.name], PutTree(t, put, value, apnd))
  {
    hide PutAt, Rep, ValidEntries;
    var m := s[t.name];
    WritesInto(s, m, t, i, put, value, apnd);
    var f := t.entries[i];
    var d, rest := f.manifest.value, put[|f.name|..];
    WritesHere(s, d, rest, value, apnd);
    var s' := StoreAll(s, Writes(s, d, rest, value, apnd).value);
    NodeSeen(s, s', d, rest, value, apnd);
    FlushedEntry(s, m, t, i);
    DescendPut(t, i, put, value, apnd);
    SeenAbove(s, s', m, t, i, PutTree(d, rest, value, apnd));
  }

  lemma FlushedEntry(s: Blobs, m: Manifest, t: Manifest, i: nat)
    requires Flushed(s, m, t, i)
    ensures ValidEntry(t.name, t.entries[i]) && t.entries[i].etype.IntermediateEntry? && ValidTree(t)
  {
    assert ValidEntry(t.name, t.entries[i]);
  }

  /** The branch has changed to `d`, below its name only. */
  lemma SeenAbove(s: Blobs, s': Blobs, m: Manifest, t: Manifest, i: nat, d: Manifest)
    requires Rep(false, s, m, t) && ValidTree(t) && i < |t.entries| && t.entries[i].etype.IntermediateEntry?
    requires m.entries[i].manifest.None? && t.name in s && s[t.name] == m
    requires var n := t.name + t.entries[i].name; SameOutside(s, s', n) && n in s' && Rep(false, s', s'[n], d) && d.name == n
    ensures t.name in s' && s'[t.name] == m
    ensures Rep(false, s', m, t.(entries := t.entries[i := t.entries[i].(manifest := Some(d))]))
  {
    var f := t.entries[i];
    assert ValidEntry(t.name, f) && RepEntry(false, s, t.name, m.entries[i], f);
    assert SameAt(s, s', t.name);
    RepReplace(false, s, s', t.name, m.entries, t.entries, i, f.name, m.entries[i], f.(manifest := Some(d)));
    assert m.entries == m.entries[i := m.entries[i]];
  }

  /** The node itself, and the new child if a leaf was split. */
  lemma NodeSeen(s: Blobs, s': Blobs, d: Manifest, key: Str, value: Str, apnd: bool)
    requires ValidTree(d) && PutAt(d, key, value, apnd, false).Rewrites?
    requires var p := PutAt(d, key, value, apnd, false);
      && (p.child.Some? ==> d.entries[Slot(d.entries, key)].etype.LeafEntry?)
      && s' == (if p.child.Some? then s[p.child.value.name := p.child.value] else s)[d.name := p.node]
    ensures SameOutside(s, s', d.name) && d.name in s' && Rep(false, s', s'[d.name], PutTree(d, key, value, apnd))
    ensures PutTree(d, key, value, apnd).name == d.name
  {
    hide PutAt, Slot, ValidEntries, RepEntries, Insert.Put;
    var p := PutAt(d, key, value, apnd, false);
    var d' := PutTree(d, key, value, apnd);
    assert ValidTree(d') by {
      PutIsUpdate(d.name, d.entries, key, value, apnd, key);
    }
    RepSelfTree(s', d');
    NodeName(d, key, value, apnd);
    if p.child.Some? {
      SplitChildName(d, key, value, apnd);
      LeafSplitSeen(s', d, key, value, apnd);
      forall n | !(d.name <= n) ensures SameAt(s, s', n) {
        LongerPrefix(d.name, p.child.value.name, n);
      }
    } else {
      PutAtInMemory(d, key, value, apnd);
      SameInBothModes(d, key, value, apnd);
    }
  }

  lemma SameInBothModes(d: Manifest, key: Str, value: Str, apnd: bool)
    requires PutAt(d, key, value, apnd, false).Rewrites? && PutAt(d, key, value, apnd, false).child.None?
    ensures PutAt(d, key, value, apnd, true) == PutAt(d, key, value, apnd, false)
  {
  }

  lemma LeafSplitSeen(s: Blobs, d: Manifest, key: Str, value: Str, apnd: bool)
    requires ValidTree(d) && PutAt(d, key, value, apnd, false).Rewrites? && PutAt(d, key, value, apnd, false).child.Some?
    requires d.entries[Slot(d.entries, key)].etype.LeafEntry?
    requires var c := PutAt(d, key, value, apnd, false).child.value; c.name in s && s[c.name] == c
    requires Rep(false, s, PutTree(d, key, value, apnd), PutTree(d, key, value, apnd))
    ensures Rep(false, s, PutAt(d, key, value, apnd, false).node, PutTree(d, key, value, apnd))
  {
    hide Pair, Slot;
    var i := Slot(d.entries, key);
    var e := d.entries[i];
    assert ValidEntry(d.name, e);
    PutAtInMemory(d, key, value, apnd);
    var p, q := PutAt(d, key, value, apnd, false), PutAt(d, key, value, apnd, true);
    assert p.child == q.child;
    var d' := PutTree(d, key, value, apnd);
    assert d' == q.node;
    PairName(d.name + key[..CommonLength(e.name, key)], LeafOf(key[CommonLength(e.name, key)..], [value]),
             Rest(e, e.name[CommonLength(e.name, key)..]));
    forall j | 0 <= j < |d'.entries| ensures RepEntry(false, s, d.name, p.node.entries[j], d'.entries[j]) {
      assert RepEntry(false, s, d.name, d'.entries[j], d'.entries[j]);
    }
  }

  // ----- Deletes -----

  /** In a tree that is stored whole, only the leaves of its own node lie in a node that is read
      under its own name. */
  lemma {:induction false} LoadedIsOwned(s: Blobs, t: Manifest, key: Str, own: bool)
    requires ValidTree(t) && Locate(s, t, key).Some?
    ensures Slot(t.entries, key) < |t.entries|
    ensures Owned(s, t, key, own) <==> own && t.entries[Slot(t.entries, key)].etype.LeafEntry?
    decreases t
  {
    hide ScanSlot, Slot, Ordered;
    var i := ScanSlot(t.entries, key);
    ScanSlotIsSlot(t.name, t.entries, key);
    var f := t.entries[i];
    assert ValidEntry(t.name, f);
    if f.etype.IntermediateEntry? {
      LoadedIsOwned(s, f.manifest.value, key[|f.name|..], false);
    }
  }

  /** The key is looked up in the flushed branch. */
  predicate LooksInto(t: Manifest, i: nat, key: Str) {
    i < |t.entries| && t.entries[i].etype.IntermediateEntry? && t.entries[i].name <= key && Slot(t.entries, key) == i
  }

  lemma LocatedInto(s: Blobs, m: Manifest, t: Manifest, i: nat, key: Str)
    requires Flushed(s, m, t, i) && LooksInto(t, i, key) && Lookup(t.entries, key).Some?
    ensures var d, k := t.entries[i].manifest.value, key[|t.entries[i].name|..];
      && ValidTree(d) && Locate(s, m, key) == Locate(s, d, k) && Locate(s, d, k).Some?
      && Owned(s, m, key, true) == Owned(s, d, k, true)
  {
    hide ScanSlot, Slot, Find, Ordered;
    var f := t.entries[i];
    FlushedEntry(s, m, t, i);
    assert RepEntry(false, s, t.name, m.entries[i], f);
    LocateIsFind(s, m, t, key);
    RepIsAlike(false, s, t.name, m.entries, t.entries);
    ScanSlotAlike(m.entries, t.entries, key);
    ScanSlotIsSlot(t.name, t.entries, key);
  }

  /** After a flush, a delete of a leaf of the branch's own node is the delete on the tree; a delete
      of a leaf of a node embedded in it goes unseen. */
  lemma DeleteAtBranch(s: Blobs, t: Manifest, i: nat, key: Str)
    requires t.name in s && Flushed(s, s[t.name], t, i) && LooksInto(t, i, key) && Lookup(t.entries, key).Some?
    ensures var d, k := t.entries[i].manifest.value, key[|t.entries[i].name|..];
      && Slot(d.entries, k) < |d.entries|
      && (Owned(s, s[t.name], key, true) <==> d.entries[Slot(d.entries, k)].etype.LeafEntry?)
      && var s' := Spliced(s, s[t.name], key);
         && t.name in s'
         && Rep(false, s', s'[t.name], if d.entries[Slot(d.entries, k)].etype.LeafEntry? then RemoveTree(t, key) else t)
  {
    hide Rep, Owned, Slot, Find, Spliced, Locate;
    LocatedInto(s, s[t.name], t, i, key);
    LoadedIsOwned(s, t.entries[i].manifest.value, key[|t.entries[i].name|..], true);
    RemoveRep(false, s, t, key) by { assert Flushed(s, s[t.name], t, i); }
  }

  /** So after it every other key answers as before, and the deleted one still does exactly if its
      leaf lay in an embedded node, or an older leaf of the key was shadowed. */
  lemma AnswersAfterDelete(s: Blobs, t: Manifest, i: nat, key: Str, k: Str)
    requires t.name in s && Flushed(s, s[t.name], t, i) && LooksInto(t, i, key) && Lookup(t.entries, key).Some?
    ensures Locate(s, s[t.name], key).Some?
    ensures var (node, j) := Locate(s, s[t.name], key).value;
      && j < |node.entries|
      && var s' := s[node.name := node.(entries := node.entries[..j] + node.entries[j + 1..])];
         && t.name in s'
         && (k != key ==> Answer(s', s'[t.name], k) == Answer(s, s[t.name], k))
         && (!Owned(s, s[t.name], key, true) ==> Answer(s', s'[t.name], key) == Answer(s, s[t.name], key))
         && (Owned(s, s[t.name], key, true) && OneEmpty(t.entries) ==> Answer(s', s'[t.name], key) == None)
  {
    hide Rep, Owned, Slot, Find, Locate, Remove.Remove, ValidEntries, Answer, Contents, Leaves, OneEmpty;
    var m := s[t.name];
    assert Rep(false, s, m, t) && ValidTree(t) by { assert Flushed(s, m, t, i); }
    LocateIsFind(s, m, t, key);
    LocateIsFind(s, m, t, k);
    DeleteAtBranch(s, t, i, key);
    var s' := Spliced(s, m, key);
    RemoveRep(false, s, t, key);
    RemoveIsValid(t.name, t.entries, key);
    RemoveIsMapRemoval(t.name, t.entries, key);
    var u := if Owned(s, m, key, true) then RemoveTree(t, key) else t;
    LocateIsFind(s', s'[t.name], u, k);
    LocateIsFind(s', s'[t.name], u, key);
    if OneEmpty(t.entries) {
      LookupIsAssoc(t.name, Remove.Remove(t.entries, key), key);
      ContentsIsAssoc(Leaves(Remove.Remove(t.entries, key)), key);
    }
  }

  // ----- What a write leaves -----

  /** The store after a batch was written to an index without entries. */
  predicate FreshlyWritten(s: Blobs, t: Manifest) {
    && t.name in s && s[t.name] == MergedRoot(Manifest(t.name, true, []), t)
    && forall k :: 0 <= k < |Children(t.entries)| ==> Saved(s, Children(t.entries)[k])
  }

  /** It is flushed at every branch of the root that is low enough for no cut. */
  lemma FreshIsFlushed(s: Blobs, t: Manifest, i: nat)
    requires ValidTree(t) && Empties(t.entries) <= 1 && FreshlyWritten(s, t)
    requires i < |t.entries| && t.entries[i].manifest.Some? && Shallow(t.entries[i].manifest.value)
    ensures Flushed(s, s[t.name], t, i)
  {
    hide Merged, Saved, ValidEntries;
    MergedOntoNothing(t.name, t.entries);
    BatchSaved(s, t.name, t.entries);
    StripTwice(t.entries);
    ChildrenStackable(t.name, t.entries);
    SavedIsFlushed(s, s[t.name], t, i);
  }

  lemma {:induction false} MergedOntoNothing(base: Str, ms: seq<Entry>)
    requires ValidEntries(base, ms) && Empties(ms) <= 1
    ensures Merged([], ms) == ms
  {
    hide ValidEntry, AddSorted, Ordered;
    if ms != [] {
      var init, e := ms[..|ms| - 1], ms[|ms| - 1];
      InitIsValid(base, ms);
      EmptiesOfInit(ms);
      MergedOntoNothing(base, init);
      AddedLast(base, ms);
    }
  }

  lemma InitIsValid(base: Str, ms: seq<Entry>)
    requires ValidEntries(base, ms) && ms != []
    ensures ValidEntries(base, ms[..|ms| - 1])
  {
    hide ValidEntry;
  }

  lemma AddedLast(base: Str, ms: seq<Entry>)
    requires ValidEntries(base, ms) && ms != [] && Empties(ms) <= 1
    ensures AddSorted(ms[..|ms| - 1], ms[|ms| - 1]) == ms
  {
    hide ValidEntry, Duplicate, InsertPosition;
    var init, e := ms[..|ms| - 1], ms[|ms| - 1];
    assert ms == init + [e];
    if e.name == [] {
      assert init == [] by {
        if init != [] {
          EmptiesIsUnique(ms, |ms|);
        }
      }
    } else {
      NoDuplicate(init, e);
      InsertPositionIsUnique(init, e.name, |init|);
      assert AddSorted(init, e) == InsertAt(init, |init|, e);
    }
  }

  lemma EmptiesOfInit(ms: seq<Entry>)
    requires ms != []
    ensures Empties(ms[..|ms| - 1]) <= Empties(ms)
  {
    var init := ms[..|ms| - 1];
    EmptiesIsUnique(init, if Empties(ms) <= |init| then Empties(ms) else |init|);
  }

  // ----- A put that splits an embedded sub-branch -----

  /** The put splits a sub-branch of the branch's own node. */
  predicate SplitsBranch(d: Manifest, rest: Str, value: Str, apnd: bool) {
    var p, j := PutAt(d, rest, value, apnd, false), Slot(d.entries, rest);
    p.Rewrites? && p.child.Some? && j < |d.entries| && d.entries[j].etype.IntermediateEntry?
  }

  /** An entry that starts the key, in a node whose entries have different first bytes. */
  lemma ScanAt(es: seq<Entry>, key: Str, j: nat)
    requires Ordered(es) && j < |es| && Takes(es[j], key) && es[j].name != []
    requires forall i :: 0 <= i < |es| && es[i].etype.IntermediateEntry? ==> es[i].name != []
    ensures ScanSlot(es, key) == j
  {
    assert Head(es[j].name) == Head(key);
    forall i | 0 <= i < j ensures !Takes(es[i], key) && Head(es[i].name) <= Head(key) {
      assert Head(es[i].name) < Head(es[j].name);
    }
    ScanSlotIsUnique(es, key, j);
  }

  lemma RootToBranch(s: Blobs, m: Manifest, t: Manifest, i: nat, s': Blobs, key: Str)
    requires Flushed(s, m, t, i) && t.entries[i].name <= key
    requires t.name + t.entries[i].name in s'
    ensures Locate(s', m, key) == Locate(s', s'[t.name + t.entries[i].name], key[|t.entries[i].name|..])
  {
    assert ValidEntry(t.name, t.entries[i]) && RepEntry(false, s, t.name, m.entries[i], t.entries[i]);
    forall j | 0 <= j < |t.entries| && t.entries[j].etype.IntermediateEntry? ensures t.entries[j].name != [] {
      assert ValidEntry(t.name, t.entries[j]);
    }
    ScanAt(t.entries, key, i);
    RepIsAlike(false, s, t.name, m.entries, t.entries);
    ScanSlotAlike(m.entries, t.entries, key);
  }

  /** The node after such a put: the entry has the shorter name and still the embedded node. */
  lemma SplitNodeShape(s: Blobs, d: Manifest, rest: Str, value: Str, apnd: bool)
    requires ValidTree(d) && SplitsBranch(d, rest, value, apnd)
    ensures var p, j := PutAt(d, rest, value, apnd, false), Slot(d.entries, rest);
      var e := d.entries[j]; var n := CommonLength(e.name, rest);
      && 0 < n < |e.name| && e.name[..n] == rest[..n] && ValidEntry(d.name, e) && e.manifest.Some?
      && p.node == d.(entries := d.entries[j := Entry(rest[..n], IntermediateEntry, e.ref, e.manifest)])
      && Ordered(p.node.entries)
      && forall i :: 0 <= i < |p.node.entries| && p.node.entries[i].etype.IntermediateEntry? ==> p.node.entries[i].name != []
  {
    hide Pair, AddSorted;
    var j := Slot(d.entries, rest);
    var e := d.entries[j];
    assert ValidEntry(d.name, e);
    assert Head(rest[..CommonLength(e.name, rest)]) == Head(e.name);
    forall i | 0 <= i < |d.entries| && d.entries[i].etype.IntermediateEntry? ensures d.entries[i].name != [] {
      assert ValidEntry(d.name, d.entries[i]);
    }
  }

  /** Every key that starts with the shorter name is then looked up in the embedded node, with the
      rest of the key after the shorter name. */
  lemma SplitMisleads(s: Blobs, t: Manifest, i: nat, put: Str, value: Str, apnd: bool, key: Str)
    requires t.name in s && Flushed(s, s[t.name], t, i) && GoesInto(t, i, put)
    requires SplitsBranch(t.entries[i].manifest.value, put[|t.entries[i].name|..], value, apnd)
    requires var d, rest := t.entries[i].manifest.value, put[|t.entries[i].name|..];
      t.entries[i].name + rest[..CommonLength(d.entries[Slot(d.entries, rest)].name, rest)] <= key
    ensures Writes(s, s[t.name], put, value, apnd).Some?
    ensures var f := t.entries[i]; var d, rest := f.manifest.value, put[|f.name|..];
      var e := d.entries[Slot(d.entries, rest)]; var n := CommonLength(e.name, rest);
      && e.manifest.Some?
      && Answer(StoreAll(s, Writes(s, s[t.name], put, value, apnd).value), s[t.name], key) ==
         Lookup(e.manifest.value.entries, key[|f.name| + n..])
  {
    hide PutAt, Locate, Lookup, ScanSlot, Rep, ValidEntries;
    var m, f := s[t.name], t.entries[i];
    var d, rest := f.manifest.value, put[|f.name|..];
    WritesInto(s, m, t, i, put, value, apnd);
    SplitNodeShape(s, d, rest, value, apnd);
    WritesHere(s, d, rest, value, apnd);
    SplitChildName(d, rest, value, apnd);
    var s', p, j := StoreAll(s, Writes(s, m, put, value, apnd).value), PutAt(d, rest, value, apnd, false), Slot(d.entries, rest);
    var e := d.entries[j];
    var n := CommonLength(e.name, rest);
    PrefixTransitive(f.name, rest[..n], key);
    RootToBranch(s, m, t, i, s', key);
    var k := key[|f.name|..];
    assert k[..n] == rest[..n] by { assert key[..|f.name| + n] == f.name + rest[..n]; }
    ScanAt(p.node.entries, k, j);
    assert Locate(s', p.node, k) == Locate(s', e.manifest.value, k[n..]) by {
      StepEmbedded(s', p.node, k, j);
    }
    assert k[n..] == key[|f.name| + n..];
    var low := e.manifest.value;
    assert ValidTree(low) by { assert ValidEntry(d.name, e); }
    RepSelfTree(s', low);
    LocateIsFind(s', low, low, k[n..]);
  }

  lemma StepEmbedded(s: Blobs, m: Manifest, key: Str, j: nat)
    requires j < |m.entries| && ScanSlot(m.entries, key) == j && Takes(m.entries[j], key)
    requires m.entries[j].etype.IntermediateEntry? && m.entries[j].name != [] && m.entries[j].manifest.Some?
    ensures Locate(s, m, key) == Locate(s, m.entries[j].manifest.value, key[|m.entries[j].name|..])
  {
  }

  // ----- When a put into a flushed branch is an update of the map -----

  /** Every key answers as it should after a put: the key with `refs`, the others as before. */
  ghost predicate IsUpdate(s: Blobs, s': Blobs, m: Manifest, put: Str, refs: Refs) {
    forall k :: Answer(s', m, k) == if k == put then Some(refs) else Answer(s, m, k)
  }

  lemma {:induction false} LongestKey(xs: seq<Item>) returns (x: Str)
    requires xs != []
    ensures x in Contents(xs) && forall k :: k in Contents(xs) ==> |k| <= |x|
  {
    x := xs[0].key;
    if |xs| > 1 {
      var y := LongestKey(xs[1..]);
      if |y| > |x| {
        x := y;
      }
    }
  }

  /** The longest key below the sub-branch is lost. */
  lemma SplitLosesLongest(s: Blobs, t: Manifest, i: nat, put: Str, value: Str, apnd: bool, x: Str)
    requires t.name in s && Flushed(s, s[t.name], t, i) && GoesInto(t, i, put)
    requires SplitsBranch(t.entries[i].manifest.value, put[|t.entries[i].name|..], value, apnd)
    requires var d, rest := t.entries[i].manifest.value, put[|t.entries[i].name|..];
      var e := d.entries[Slot(d.entries, rest)];
      e.manifest.Some? && x in Contents(Leaves(e.manifest.value.entries))
      && forall k :: k in Contents(Leaves(e.manifest.value.entries)) ==> |k| <= |x|
    ensures Writes(s, s[t.name], put, value, apnd).Some?
    ensures var d, rest := t.entries[i].manifest.value, put[|t.entries[i].name|..];
      var key := t.entries[i].name + (d.entries[Slot(d.entries, rest)].name + x);
      && key != put && Answer(s, s[t.name], key).Some?
      && Answer(StoreAll(s, Writes(s, s[t.name], put, value, apnd).value), s[t.name], key).None?
  {
    hide PutAt, Answer, Lookup, Leaves, Contents, ValidEntries, Rep, Slot, StoreAll, Writes, Whole;
    var m, f := s[t.name], t.entries[i];
    var d, rest := f.manifest.value, put[|f.name|..];
    WritesInto(s, m, t, i, put, value, apnd);
    SplitNodeShape(s, d, rest, value, apnd);
    var j := Slot(d.entries, rest);
    var e := d.entries[j];
    var n, low := CommonLength(e.name, rest), e.manifest.value;
    assert ValidTree(low) by { assert ValidEntry(d.name, e); }
    var key := f.name + (e.name + x);
    FlushedAnswers(s, m, t, i, j, x);
    LookupIsContents(low.name, low.entries, x);
    OtherKey(f.name, e.name, rest, put, x);
    KeyParts(f.name, e.name, rest, n, x);
    SplitMisleads(s, t, i, put, value, apnd, key);
    LookupIsContents(low.name, low.entries, e.name[n..] + x);
  }

  lemma OtherKey(start: Str, name: Str, rest: Str, put: Str, x: Str)
    requires CommonLength(name, rest) < |name| && start <= put && rest == put[|start|..]
    ensures start + (name + x) != put
  {
    assert !(name <= rest);
    assert (start + (name + x))[|start|..] == name + x;
  }

  lemma KeyParts(start: Str, name: Str, rest: Str, n: nat, x: Str)
    requires n <= |name| && n <= |rest| && name[..n] == rest[..n]
    ensures var key := start + (name + x); start + rest[..n] <= key && key[|start| + n..] == name[n..] + x
  {
    assert start + (name + x) == start + rest[..n] + (name[n..] + x);
  }

  /** A split never is: the longest key below the sub-branch is lost, or the new key is. */
  lemma SplitIsNoUpdate(s: Blobs, t: Manifest, i: nat, put: Str, value: Str, apnd: bool, refs: Refs)
    requires t.name in s && Flushed(s, s[t.name], t, i) && GoesInto(t, i, put)
    requires SplitsBranch(t.entries[i].manifest.value, put[|t.entries[i].name|..], value, apnd)
    ensures Writes(s, s[t.name], put, value, apnd).Some?
    ensures !IsUpdate(s, StoreAll(s, Writes(s, s[t.name], put, value, apnd).value), s[t.name], put, refs)
  {
    hide PutAt, Answer, Lookup, Leaves, Contents, ValidEntries, Rep, Slot, StoreAll, Writes, Whole;
    var m, f := s[t.name], t.entries[i];
    var d, rest := f.manifest.value, put[|f.name|..];
    WritesInto(s, m, t, i, put, value, apnd);
    SplitNodeShape(s, d, rest, value, apnd);
    var e := d.entries[Slot(d.entries, rest)];
    var n, low := CommonLength(e.name, rest), e.manifest.value;
    assert ValidTree(low) by { assert ValidEntry(d.name, e); }
    assert f.name + rest[..n] <= put by { assert put == f.name + rest[..n] + rest[n..]; }
    SplitMisleads(s, t, i, put, value, apnd, put);
    var s' := StoreAll(s, Writes(s, m, put, value, apnd).value);
    if IsUpdate(s, s', m, put, refs) {
      assert Answer(s', m, put) == Some(refs);
      LookupIsContents(low.name, low.entries, put[|f.name| + n..]);
      NothingListed(low.entries);
      var x := LongestKey(Leaves(low.entries));
      SplitLosesLongest(s, t, i, put, value, apnd, x);
    }
  }

  lemma NothingListed(es: seq<Entry>)
    ensures Leaves(es) == [] ==> Contents(Leaves(es)) == map[]
  {
  }

  /** What the store answers below a sub-branch before the put. */
  lemma FlushedAnswers(s: Blobs, m: Manifest, t: Manifest, i: nat, j: nat, x: Str)
    requires t.name in s && s[t.name] == m && Flushed(s, m, t, i)
    requires var d := t.entries[i].manifest.value; j < |d.entries| && d.entries[j].manifest.Some?
    ensures var d := t.entries[i].manifest.value; var e := d.entries[j];
      Answer(s, m, t.entries[i].name + (e.name + x)) == Lookup(e.manifest.value.entries, x)
  {
    hide Slot, Answer;
    var f := t.entries[i];
    assert ValidEntry(t.name, f);
    var d := f.manifest.value;
    var e := d.entries[j];
    assert ValidEntry(d.name, e);
    var key := f.name + (e.name + x);
    LocateIsFind(s, m, t, key);
    assert key[|f.name|..] == e.name + x && (e.name + x)[|e.name|..] == x;
    SlotIsUnique(t.entries, key, i);
    SlotIsUnique(d.entries, e.name + x, j);
    assert Find(t.entries, key) == EntryFind(f, key) == Find(d.entries, e.name + x) == EntryFind(e, e.name + x);
  }

  /** Exactly when a put into a flushed branch is an update of the map: if it rewrites the branch's
      own node without splitting a sub-branch; or if it goes unseen but changes nothing anyway. */
  lemma PutIntoFlushedBranch(s: Blobs, t: Manifest, i: nat, put: Str, value: Str, apnd: bool)
    requires t.name in s && Flushed(s, s[t.name], t, i) && GoesInto(t, i, put)
    ensures Writes(s, s[t.name], put, value, apnd).Some?
    ensures var d, rest := t.entries[i].manifest.value, put[|t.entries[i].name|..];
      var refs := Kept(t.entries, put, apnd) + [value];
      IsUpdate(s, StoreAll(s, Writes(s, s[t.name], put, value, apnd).value), s[t.name], put, refs) <==>
      if PutAt(d, rest, value, apnd, false).Descends? then Lookup(t.entries, put) == Some(refs)
      else !SplitsBranch(d, rest, value, apnd)
  {
    hide Slot, Answer, Kept, Rep, ValidEntries, StoreAll, Writes, Lookup, Find, SameAnswer;
    var m := s[t.name];
    var d, rest := t.entries[i].manifest.value, put[|t.entries[i].name|..];
    var refs := Kept(t.entries, put, apnd) + [value];
    WritesInto(s, m, t, i, put, value, apnd);
    var p := PutAt(d, rest, value, apnd, false);
    if p.Descends? {
      PutBelowIsHidden(s, t, i, put, value, apnd, put);
      var s' := StoreAll(s, Writes(s, m, put, value, apnd).value);
      FlushedIsMixed(s, m, t, i);
      LocateIsFind(s, m, t, put);
      forall k ensures Answer(s', m, k) == Answer(s, m, k) {
        LocateIsFind(s, m, t, k);
        LocateIsFind(s', m, t, k);
      }
    } else if SplitsBranch(d, rest, value, apnd) {
      SplitIsNoUpdate(s, t, i, put, value, apnd, refs);
    } else {
      SlotOfSplit(d, rest, value, apnd);
      PutAtBranchIsSeen(s, t, i, put, value, apnd);
      var s' := StoreAll(s, Writes(s, m, put, value, apnd).value);
      SeenIsUpdate(s, s', m, t, put, value, apnd);
    }
  }

  lemma SlotOfSplit(d: Manifest, rest: Str, value: Str, apnd: bool)
    ensures var p := PutAt(d, rest, value, apnd, false);
      p.Rewrites? && p.child.Some? ==> Slot(d.entries, rest) < |d.entries|
  {
  }

  lemma SeenIsUpdate(s: Blobs, s': Blobs, m: Manifest, t: Manifest, put: Str, value: Str, apnd: bool)
    requires Rep(false, s, m, t) && ValidTree(t) && Rep(false, s', m, PutTree(t, put, value, apnd))
    ensures IsUpdate(s, s', m, put, Kept(t.entries, put, apnd) + [value])
  {
    hide Answer, Rep, ValidEntries, Lookup, Kept;
    var t' := PutTree(t, put, value, apnd);
    forall k ensures Answer(s', m, k) == if k == put then Some(Kept(t.entries, put, apnd) + [value]) else Answer(s, m, k) {
      PutIsUpdate(t.name, t.entries, put, value, apnd, k);
      LocateIsFind(s, m, t, k);
      LocateIsFind(s', m, t', k);
    }
  }

  // ----- A put that rewrites the root -----

  /** On a store of any shape, a put that rewrites the root itself is seen: the store then stands for
      the put on the tree. A split needs the split branch by name, as a write leaves it, and a new
      node under a name that nothing reads. */
  lemma PutAtRootIsSeen(s: Blobs, t: Manifest, put: Str, value: Str, apnd: bool)
    requires t.name in s && Rep(false, s, s[t.name], t) && MixedTree(t)
    requires PutAt(s[t.name], put, value, apnd, false).Rewrites?
    requires var m := s[t.name]; var c := PutAt(m, put, value, apnd, false).child;
      c.Some? ==> m.entries[Slot(m.entries, put)].manifest.None? && !Reads(s, m, t, c.value.name)
    ensures Writes(s, s[t.name], put, value, apnd).Some?
    ensures var s' := StoreAll(s, Writes(s, s[t.name], put, value, apnd).value);
      t.name in s' && Rep(false, s', s'[t.name], PutTree(t, put, value, apnd))
  {
    hide PutAt, ValidEntry, AddSorted, Reads;
    var m := s[t.name];
    var p := PutAt(m, put, value, apnd, false);
    WritesHere(s, m, put, value, apnd);
    var s' := StoreAll(s, Writes(s, m, put, value, apnd).value);
    forall n | Reads(s, m, t, n) ensures SameAt(s, s', n) {
      if !Reaches(t.entries, n) {
        UnreachedIsUnread(false, s, m, t, n);
      }
      ReachedNames(t.name, t.entries, n);
    }
    UnreadIsHidden(false, s, s', m, t);
    SlotOfRep(false, s, m, t, put);
    var i := Slot(t.entries, put);
    if p.child.Some? {
      SplitChildName(m, put, value, apnd);
      RootSplitRep(s', m, t, i, put, value, apnd);
    } else {
      RootRewriteRep(s', m, t, put, value, apnd);
    }
  }

  lemma RootRewriteRep(s: Blobs, m: Manifest, t: Manifest, put: Str, value: Str, apnd: bool)
    requires Rep(false, s, m, t) && MixedTree(t)
    requires PutAt(m, put, value, apnd, false).Rewrites? && PutAt(m, put, value, apnd, false).child.None?
    ensures Rep(false, s, PutAt(m, put, value, apnd, false).node, PutTree(t, put, value, apnd))
  {
    hide AddSorted, Slot, ValidEntry;
    SlotOfRep(false, s, m, t, put);
    var i := Slot(t.entries, put);
    if put == [] || i == |t.entries| {
      AddSortedRep(false, s, t.name, m.entries, t.entries, LeafOf(put, [value]), LeafOf(put, [value]));
    } else {
      assert RepEntry(false, s, t.name, m.entries[i], t.entries[i]);
      UpdatePut(t, i, put, value, apnd);
    }
  }

  lemma RootSplitRep(s: Blobs, m: Manifest, t: Manifest, i: nat, put: Str, value: Str, apnd: bool)
    requires Rep(false, s, m, t) && MixedTree(t) && i == Slot(t.entries, put) == Slot(m.entries, put)
    requires PutAt(m, put, value, apnd, false).Rewrites? && PutAt(m, put, value, apnd, false).child.Some?
    requires i < |m.entries| ==> m.entries[i].manifest.None?
    requires var c := PutAt(m, put, value, apnd, false).child.value; c.name in s && s[c.name] == c
    ensures Rep(false, s, PutAt(m, put, value, apnd, false).node, PutTree(t, put, value, apnd))
  {
    hide Pair, AddSorted, Slot, MixedEntries, Split, RepEntry, PutAt, RepEntries, Insert.Put, Touch, CommonLength;
    EntryInRep(s, m, t, i, put, value, apnd);
    var e, f := m.entries[i], t.entries[i];
    var n := CommonLength(f.name, put);
    var prefix, suffix, ks := put[..n], f.name[n..], put[n..];
    assert f.name == prefix + suffix && put == prefix + ks;
    SplitPut(t, i, prefix, suffix, ks, value, apnd);
    SplitShape(t.name, f, prefix, suffix, ks, value);
    var leaf := LeafOf(ks, [value]);
    PairName(t.name + prefix, leaf, SplitRest(e, suffix, false));
    RestRep(s, t.name, e, f, prefix, suffix);
    PairRep(false, s, t.name + prefix, leaf, SplitRest(e, suffix, false), Rest(f, suffix));
    var f' := BranchTo(prefix, f.ref, Pair(t.name + prefix, leaf, Rest(f, suffix)));
    RepByName(false, s, t.name, prefix, e.ref, f'.manifest.value);
    ReplacedRep(s, m, t, i, Entry(prefix, IntermediateEntry, e.ref, None), f');
  }

  /** The entry that splits, and the split. */
  lemma EntryInRep(s: Blobs, m: Manifest, t: Manifest, i: nat, put: Str, value: Str, apnd: bool)
    requires Rep(false, s, m, t) && MixedTree(t) && i == Slot(m.entries, put)
    requires PutAt(m, put, value, apnd, false).Rewrites? && PutAt(m, put, value, apnd, false).child.Some?
    requires i < |m.entries| ==> m.entries[i].manifest.None?
    ensures i < |m.entries| && i < |t.entries| && RepEntry(false, s, t.name, m.entries[i], t.entries[i])
    ensures var e, f := m.entries[i], t.entries[i]; var n := CommonLength(f.name, put);
      && ValidEntry(t.name, f) && e.name == f.name && e.etype == f.etype && e.ref == f.ref && put != []
      && n > 0 && f.name[..n] == put[..n] && Head(f.name[n..]) != Head(put[n..])
      && (f.etype.IntermediateEntry? ==> f.name[n..] != [])
      && PutAt(m, put, value, apnd, false) == SplitAt(m, i, put[..n], f.name[n..], put[n..], value, false)
      && PutAt(m, put, value, apnd, false).node ==
         m.(entries := m.entries[i := Entry(put[..n], IntermediateEntry, e.ref, None)])
      && PutAt(m, put, value, apnd, false).child.value ==
         Pair(t.name + put[..n], LeafOf(put[n..], [value]), SplitRest(e, f.name[n..], false))
  {
    hide Pair, AddSorted, Slot, RepEntry, ValidEntry;
    assert RepEntry(false, s, t.name, m.entries[i], t.entries[i]) && ValidEntry(t.name, t.entries[i]);
    SameHead(false, s, t.name, m.entries[i], t.entries[i]);
  }

  lemma ReplacedRep(s: Blobs, m: Manifest, t: Manifest, i: nat, e: Entry, f: Entry)
    requires Rep(false, s, m, t) && i < |t.entries| && RepEntry(false, s, t.name, e, f)
    ensures Rep(false, s, m.(entries := m.entries[i := e]), t.(entries := t.entries[i := f]))
  {
    hide RepEntry;
  }

  lemma SameHead(flat: bool, s: Blobs, base: Str, e: Entry, f: Entry)
    requires RepEntry(flat, s, base, e, f)
    ensures e.name == f.name && e.etype == f.etype && e.ref == f.ref
  {
  }

  /** What is left of an entry below a split finds its child under the name it had. */
  lemma RestRep(s: Blobs, base: Str, e: Entry, f: Entry, prefix: Str, suffix: Str)
    requires RepEntry(false, s, base, e, f) && ValidEntry(base, f) && f.name == prefix + suffix && e.manifest.None?
    ensures RepEntry(false, s, base + prefix, SplitRest(e, suffix, false), Rest(f, suffix))
  {
    assert base + prefix + suffix == base + f.name;
  }

  /** On a valid tree the name of the new node is never read. */
  lemma NewNodeIsUnread(s: Blobs, m: Manifest, t: Manifest, put: Str, value: Str, apnd: bool)
    requires Rep(false, s, m, t) && ValidTree(t)
    requires PutAt(m, put, value, apnd, false).Rewrites? && PutAt(m, put, value, apnd, false).child.Some?
    ensures !Reads(s, m, t, PutAt(m, put, value, apnd, false).child.value.name)
  {
    hide Pair, AddSorted, Slot, Reads;
    SlotOfRep(false, s, m, t, put);
    var i := Slot(t.entries, put);
    assert RepEntry(false, s, t.name, m.entries[i], t.entries[i]) && ValidEntry(t.name, t.entries[i]);
    var n := CommonLength(t.entries[i].name, put);
    PairName(t.name + put[..n], LeafOf(put[n..], [value]), SplitRest(m.entries[i], t.entries[i].name[n..], false));
    assert SplitName(t.name, t.entries, put) == Some(t.name + put[..n]);
    SplitNameIsNew(t.name, t.entries, put);
    ValidIsMixed(t.name, t.entries);
    UnreachedIsUnread(false, s, m, t, t.name + put[..n]);
  }
}
