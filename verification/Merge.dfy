/** Merging the root of a batch into the root on disk. */
module Merge {
  import opened Bytes
  import opened Tree
  import opened Insert
  import opened Storage
  import opened Flush
  import opened Remove
  import opened Nodes

  /** The batch entries added one by one to the disk entries. */
  function Merged(ds: seq<Entry>, ms: seq<Entry>): seq<Entry> {
    if ms == [] then ds
    else AddSorted(Merged(ds, ms[..|ms| - 1]), ms[|ms| - 1])
  }

  /** Where the two lists share a first byte they hold the same entry, or both the empty name. */
  predicate Mergeable(ds: seq<Entry>, ms: seq<Entry>) {
    forall i, j :: 0 <= i < |ds| && 0 <= j < |ms| && Head(ds[i].name) == Head(ms[j].name) ==>
      ds[i].name == [] || ds[i] == ms[j]
  }

  lemma MergeableSelf(base: Str, es: seq<Entry>)
    requires ValidEntries(base, es)
    ensures Mergeable(es, es)
  {
  }

  lemma AddSortedMembers(es: seq<Entry>, e: Entry)
    ensures forall k :: 0 <= k < |AddSorted(es, e)| ==> AddSorted(es, e)[k] == e || AddSorted(es, e)[k] in es
    ensures forall x :: x in es ==> x in AddSorted(es, e)
  {
    hide InsertPosition, Duplicate;
    if e.name == [] || !Duplicate(es, e) {
      var p := if e.name == [] then 0 else InsertPosition(es, e.name);
      var r := InsertAt(es, p, e);
      assert AddSorted(es, e) == r;
      forall x | x in es ensures x in r {
        var i :| 0 <= i < |es| && es[i] == x;
        assert r[if i < p then i else i + 1] == x;
      }
    }
  }

  lemma {:induction false} MergedMembers(ds: seq<Entry>, ms: seq<Entry>)
    ensures forall k :: 0 <= k < |Merged(ds, ms)| ==> Merged(ds, ms)[k] in ds || Merged(ds, ms)[k] in ms
    ensures forall x :: x in ds ==> x in Merged(ds, ms)
  {
    hide AddSorted;
    if ms != [] {
      var init, e := ms[..|ms| - 1], ms[|ms| - 1];
      MergedMembers(ds, init);
      AddSortedMembers(Merged(ds, init), e);
      assert ms == init + [e];
    }
  }

  // ----- When a merge leaves a valid root -----

  /** An entry that is there already is not added again. */
  lemma MergedAgain(ds: seq<Entry>, ms: seq<Entry>)
    requires ms != []
    requires var e := ms[|ms| - 1]; e.name != [] && e in ds
    ensures Merged(ds, ms) == Merged(ds, ms[..|ms| - 1])
  {
    var init, e := ms[..|ms| - 1], ms[|ms| - 1];
    MergedMembers(ds, init);
    var x :| 0 <= x < |Merged(ds, init)| && Merged(ds, init)[x] == e;
    assert Duplicate(Merged(ds, init), e);
  }

  lemma NewEntryIsFresh(base: Str, ds: seq<Entry>, ms: seq<Entry>)
    requires ValidEntries(base, ms) && Mergeable(ds, ms) && ms != []
    requires var e := ms[|ms| - 1]; e.name == [] || e !in ds
    ensures Fresh(Merged(ds, ms[..|ms| - 1]), ms[|ms| - 1].name)
  {
    hide ValidEntry;
    var init, e := ms[..|ms| - 1], ms[|ms| - 1];
    MergedMembers(ds, init);
    if e.name != [] {
      forall k | 0 <= k < |Merged(ds, init)| ensures Head(Merged(ds, init)[k].name) != Head(e.name) {
        var x := Merged(ds, init)[k];
        if x in ds {
          var i :| 0 <= i < |ds| && ds[i] == x;
        } else {
          var j :| 0 <= j < |init| && init[j] == x;
          assert ms[j] == x;
        }
      }
    }
  }

  lemma {:induction false} MergedIsValid(base: Str, ds: seq<Entry>, ms: seq<Entry>)
    requires ValidEntries(base, ds) && ValidEntries(base, ms) && Mergeable(ds, ms)
    ensures ValidEntries(base, Merged(ds, ms))
  {
    hide ValidEntry, AddSorted;
    if ms != [] {
      var init, e := ms[..|ms| - 1], ms[|ms| - 1];
      MergedIsValid(base, ds, init);
      if e.name != [] && e in ds {
        MergedAgain(ds, ms);
      } else {
        NewEntryIsFresh(base, ds, ms);
        assert ValidEntry(base, e);
        AddSortedFresh(base, Merged(ds, init), e, []);
      }
    }
  }

  // ----- What a merged root answers -----

  /** One entry added to a root: it takes a key that no entry of its root takes. An empty name
      comes to the front. */
  lemma AddedTaker(base: Str, es: seq<Entry>, e: Entry, key: Str)
    requires MixedEntries(base, es) && ValidEntry(base, e)
    ensures MixedEntries(base, AddSorted(es, e))
    ensures e.name == [] ==> Taker(AddSorted(es, e), key) == if key == [] then Some(e) else Taker(es, key)
    ensures e.name != [] ==>
      Taker(AddSorted(es, e), key) ==
      if Taker(es, key).Some? then Taker(es, key) else if Takes(e, key) && !Duplicate(es, e) then Some(e) else None
  {
    hide ValidEntry, Duplicate, InsertPosition, ScanSlot, MixedEntries, Takes, Taker, InsertAt, Head;
    if e.name == [] || !Duplicate(es, e) {
      var p := if e.name == [] then 0 else InsertPosition(es, e.name);
      AtFront(es, e);
      assert AddSorted(es, e) == InsertAt(es, p, e);
      PositionFits(base, es, e);
      InsertIsMixed(base, es, p, e);
      InsertedTaker(base, es, p, e, key);
    }
  }

  /** The entries of a root on both sides of a position, as seen by a new entry. */
  predicate Fits(es: seq<Entry>, p: nat, e: Entry)
    requires p <= |es|
  {
    && (forall i :: 0 <= i < p ==> Head(es[i].name) <= Head(e.name))
    && (forall i :: p <= i < |es| ==> Head(es[i].name) >= Head(e.name))
    && (e.name != [] ==> forall i :: p <= i < |es| ==> Head(es[i].name) > Head(e.name))
    && (e.name == [] ==> p == 0)
  }

  lemma PositionFits(base: Str, es: seq<Entry>, e: Entry)
    requires MixedEntries(base, es)
    ensures Fits(es, if e.name == [] then 0 else InsertPosition(es, e.name), e)
  {
    hide ValidEntry, InsertPosition;
    var p := if e.name == [] then 0 else InsertPosition(es, e.name);
    forall i | p <= i < |es| ensures e.name != [] ==> Head(es[i].name) > Head(e.name) {
      assert p < |es|;
      assert e.name != [] ==> Head(es[p].name) > Head(e.name);
    }
  }

  lemma InsertIsMixed(base: Str, es: seq<Entry>, p: nat, e: Entry)
    requires MixedEntries(base, es) && ValidEntry(base, e) && p <= |es| && Fits(es, p, e)
    ensures MixedEntries(base, InsertAt(es, p, e))
  {
    hide ValidEntry, Head;
    var r := InsertAt(es, p, e);
    forall i | 0 <= i < |r| ensures ValidEntry(base, r[i]) {
      assert r[i] == if i < p then es[i] else if i == p then e else es[i - 1];
    }
  }

  lemma InsertedTaker(base: Str, es: seq<Entry>, p: nat, e: Entry, key: Str)
    requires MixedEntries(base, es) && ValidEntry(base, e) && p <= |es| && MixedEntries(base, InsertAt(es, p, e))
    requires Fits(es, p, e)
    ensures e.name == [] ==> Taker(InsertAt(es, p, e), key) == if key == [] then Some(e) else Taker(es, key)
    ensures e.name != [] ==>
      Taker(InsertAt(es, p, e), key) ==
      if Taker(es, key).Some? then Taker(es, key) else if Takes(e, key) then Some(e) else None
  {
    hide ValidEntry, MixedEntries, Takes, Taker, Head, Fits;
    var r := InsertAt(es, p, e);
    var i := FirstTakerIn(base, es, key);
    TakersMeet(base, es, p, e, key, i);
    var k := if Takes(e, key) && p <= i then p else if i < p then i else i + 1;
    forall j | 0 <= j < k ensures !Takes(r[j], key) {
      assert r[j] == if j < p then es[j] else if j == p then e else es[j - 1];
    }
    FirstTaker(base, r, key, k);
  }

  /** Of two entries that take one key, the one that was there stands before the new one; an empty
      name stands before all. */
  lemma TakersMeet(base: Str, es: seq<Entry>, p: nat, e: Entry, key: Str, i: nat)
    requires MixedEntries(base, es) && ValidEntry(base, e) && p <= |es| && Fits(es, p, e)
    requires i <= |es| && (i < |es| ==> Takes(es[i], key))
    ensures e.name == [] ==> p == 0 && (Takes(e, key) <==> key == [])
    ensures e.name != [] && Takes(e, key) && i < |es| ==> i < p
  {
    hide ValidEntry;
    if e.name == [] {
      EmptyTakes(base, e, key);
    } else if Takes(e, key) && i < |es| {
      assert ValidEntry(base, es[i]);
      TakersHead(base, es[i], key);
      TakersHead(base, e, key);
    }
  }

  lemma EmptyTakes(base: Str, e: Entry, key: Str)
    requires ValidEntry(base, e) && e.name == []
    ensures Takes(e, key) <==> key == []
  {
  }

  lemma FirstTakerIn(base: Str, es: seq<Entry>, key: Str) returns (i: nat)
    requires MixedEntries(base, es)
    ensures i <= |es| && (forall j :: 0 <= j < i ==> !Takes(es[j], key)) && (i < |es| ==> Takes(es[i], key))
    ensures Taker(es, key) == if i < |es| then Some(es[i]) else None
  {
    i := 0;
    while i < |es| && !Takes(es[i], key)
      invariant i <= |es| && forall j :: 0 <= j < i ==> !Takes(es[j], key)
    {
      i := i + 1;
    }
    FirstTaker(base, es, key, i);
  }

  lemma {:induction false} LastTaker(base: Str, ms: seq<Entry>, key: Str)
    requires ValidEntries(base, ms) && ms != []
    ensures ValidEntries(base, ms[..|ms| - 1])
    ensures var init, e := ms[..|ms| - 1], ms[|ms| - 1];
      && Taker(ms, key) == (if Taker(init, key).Some? then Taker(init, key) else if Takes(e, key) then Some(e) else None)
      && (e.name != [] && Takes(e, key) ==> Taker(init, key).None?)
  {
    hide ValidEntry, ScanSlot;
    var init, e := ms[..|ms| - 1], ms[|ms| - 1];
    ValidIsMixed(base, ms);
    ValidIsMixed(base, init);
    var i := FirstTakerIn(base, init, key);
    FirstTaker(base, ms, key, if i < |init| || Takes(e, key) then i else i + 1);
    if i < |init| && Takes(e, key) {
      assert ValidEntry(base, ms[i]) && ValidEntry(base, e);
      TakersHead(base, ms[i], key);
      TakersHead(base, e, key);
    }
  }

  /** A twin that was there already takes what the entry takes; it is not one of the batch. */
  lemma TwinTakes(base: Str, ds: seq<Entry>, ms: seq<Entry>, key: Str)
    requires MixedEntries(base, ds) && ValidEntries(base, ms) && ms != [] && MixedEntries(base, Merged(ds, ms[..|ms| - 1]))
    requires var e := ms[|ms| - 1]; e.name != [] && Duplicate(Merged(ds, ms[..|ms| - 1]), e) && Takes(e, key)
    ensures Taker(ds, key).Some?
  {
    hide ValidEntry, ScanSlot;
    var init, e := ms[..|ms| - 1], ms[|ms| - 1];
    var all := Merged(ds, init);
    var x :| 0 <= x < |all| && all[x].name == e.name && all[x].etype == e.etype && all[x].ref == e.ref;
    MergedMembers(ds, init);
    assert all[x] !in init;
    var i :| 0 <= i < |ds| && ds[i] == all[x];
    var k := FirstTakerIn(base, ds, key);
  }

  /** The entry of a merged root that takes a key: one of the disk, and else one of the batch; of the
      empty names, the oldest of the batch. */
  lemma MergedTaker(base: Str, ds: seq<Entry>, ms: seq<Entry>, key: Str)
    requires MixedEntries(base, ds) && ValidEntries(base, ms)
    ensures MixedEntries(base, Merged(ds, ms))
    ensures key != [] ==> Taker(Merged(ds, ms), key) == if Taker(ds, key).Some? then Taker(ds, key) else Taker(ms, key)
    ensures key == [] ==> Taker(Merged(ds, ms), key) == if Empties(ms) > 0 then Some(ms[Empties(ms) - 1]) else Taker(ds, key)
  {
    hide MixedEntries, ValidEntries, Taker, Merged;
    if key == [] {
      MergedEmptyTaker(base, ds, ms);
    } else {
      MergedNamedTaker(base, ds, ms, key);
    }
  }

  lemma {:induction false} MergedNamedTaker(base: Str, ds: seq<Entry>, ms: seq<Entry>, key: Str)
    requires MixedEntries(base, ds) && ValidEntries(base, ms) && key != []
    ensures MixedEntries(base, Merged(ds, ms))
    ensures Taker(Merged(ds, ms), key) == if Taker(ds, key).Some? then Taker(ds, key) else Taker(ms, key)
  {
    hide ValidEntry, ScanSlot, AddSorted, Taker, Duplicate, Takes, MixedEntries, Ordered;
    if ms != [] {
      var init, e := ms[..|ms| - 1], ms[|ms| - 1];
      LastTaker(base, ms, key);
      MergedNamedTaker(base, ds, init, key);
      assert ValidEntry(base, e);
      AddedTaker(base, Merged(ds, init), e, key);
      if e.name == [] {
        EmptyTakes(base, e, key);
      } else if Takes(e, key) && Duplicate(Merged(ds, init), e) {
        TwinTakes(base, ds, ms, key);
      }
    } else {
      NothingTakes(key);
    }
  }

  lemma {:induction false} MergedEmptyTaker(base: Str, ds: seq<Entry>, ms: seq<Entry>)
    requires MixedEntries(base, ds) && ValidEntries(base, ms)
    ensures MixedEntries(base, Merged(ds, ms))
    ensures Taker(Merged(ds, ms), []) == if Empties(ms) > 0 then Some(ms[Empties(ms) - 1]) else Taker(ds, [])
  {
    hide ValidEntry, ScanSlot, AddSorted, Taker, Duplicate, Takes, MixedEntries;
    if ms != [] {
      var init, e := ms[..|ms| - 1], ms[|ms| - 1];
      MergedEmptyTaker(base, ds, init);
      assert ValidEntry(base, e);
      AddedTaker(base, Merged(ds, init), e, []);
      if e.name == [] {
        EmptiesIsUnique(ms, |ms|);
      } else {
        EmptiesIsUnique(init, Empties(ms));
        NamedTakesNothing(base, e);
      }
    } else {
      NothingTakes([]);
    }
  }

  lemma NamedTakesNothing(base: Str, e: Entry)
    requires ValidEntry(base, e) && e.name != []
    ensures !Takes(e, [])
  {
  }

  lemma NothingTakes(key: Str)
    ensures Taker([], key) == None
  {
  }

  /** How many entries of a node are empty-named; they come first. */
  function Empties(ms: seq<Entry>): (n: nat)
    ensures n <= |ms|
    ensures forall i :: 0 <= i < n ==> ms[i].name == []
    ensures n < |ms| ==> ms[n].name != []
  {
    if ms == [] || ms[0].name != [] then 0 else 1 + Empties(ms[1..])
  }

  lemma EmptiesIsUnique(ms: seq<Entry>, n: nat)
    requires n <= |ms| && forall i :: 0 <= i < n ==> ms[i].name == []
    requires n < |ms| ==> ms[n].name != []
    ensures Empties(ms) == n
  {
  }

  /** In the batch itself, the newest empty-named leaf answers. */
  lemma FirstEmpty(base: Str, ms: seq<Entry>)
    requires ValidEntries(base, ms)
    ensures Find(ms, []) == if Empties(ms) > 0 then Some(ms[0]) else None
  {
    if Empties(ms) > 0 {
      assert ValidEntry(base, ms[0]);
      SlotIsUnique(ms, [], 0);
    } else {
      assert forall i :: 0 < i < |ms| ==> Head(ms[0].name) < Head(ms[i].name);
      SlotIsUnique(ms, [], |ms|);
    }
  }

  /** Holds of every key but the empty one; of the empty one, if the oldest of its leaves at
      the root holds what the newest one holds. */
  predicate SurvivesFlush(ms: seq<Entry>, key: Str) {
    key == [] && Empties(ms) > 0 ==> ms[Empties(ms) - 1].ref == ms[0].ref
  }

  /** The merge answers the key as the union of both roots would: no entry on disk takes a key of
      the batch and answers otherwise, and the empty key survives. */
  predicate MergesAsUnion(ds: seq<Entry>, ms: seq<Entry>, key: Str) {
    && SurvivesFlush(ms, key)
    && !(key != [] && Taker(ds, key).Some? && Lookup(ms, key).Some? && RefsOf(Scan(ds, key)) != Lookup(ms, key))
  }

  /** What the union of two maps answers: the second map counts. */
  function Union(d: Option<Refs>, m: Option<Refs>): Option<Refs> {
    if m.Some? then m else d
  }

  /** What a merged root answers, for all roots: what takes the key on disk comes first; of the
      empty names, the oldest of the batch. That is the union exactly if no entry on disk takes a
      key of the batch and answers otherwise, and the empty key survives. */
  lemma MergedLookup(base: Str, ds: seq<Entry>, ms: seq<Entry>, key: Str)
    requires MixedEntries(base, ds) && ValidEntries(base, ms)
    ensures MixedEntries(base, Merged(ds, ms))
    ensures RefsOf(Scan(Merged(ds, ms), key)) ==
            if key != [] then if Taker(ds, key).Some? then RefsOf(Scan(ds, key)) else Lookup(ms, key)
            else if Empties(ms) > 0 then Some(ms[Empties(ms) - 1].ref) else RefsOf(Scan(ds, key))
    ensures RefsOf(Scan(Merged(ds, ms), key)) == Union(RefsOf(Scan(ds, key)), Lookup(ms, key)) <==> MergesAsUnion(ds, ms, key)
  {
    hide ValidEntries, ScanSlot, Merged, Find;
    MergedTaker(base, ds, ms, key);
    ScanIsTaker(Merged(ds, ms), key);
    ScanIsTaker(ds, key);
    ScanIsTaker(ms, key);
    ScanIsFind(base, ms, key);
    if key == [] {
      FirstEmpty(base, ms);
      OldestIsLeaf(base, ms);
    }
  }

  lemma OldestIsLeaf(base: Str, ms: seq<Entry>)
    requires ValidEntries(base, ms)
    ensures Empties(ms) > 0 ==>
      Takes(ms[Empties(ms) - 1], []) && EntryScan(ms[Empties(ms) - 1], []) == Some(ms[Empties(ms) - 1])
  {
    if Empties(ms) > 0 {
      assert ValidEntry(base, ms[Empties(ms) - 1]);
    }
  }

  /** The map that a merged root answers from is the union of the two maps exactly if every key of
      the batch is merged as it should be. */
  lemma MergedAnswers(base: Str, ds: seq<Entry>, ms: seq<Entry>)
    requires MixedEntries(base, ds) && ValidEntries(base, ms)
    ensures Answers(Merged(ds, ms)) == Answers(ds) + Contents(Leaves(ms)) <==>
      forall key :: key in Contents(Leaves(ms)) ==> MergesAsUnion(ds, ms, key)
  {
    hide Contents, Leaves, Merged, MixedEntries, ValidEntries, Answers, Scan, Lookup, MergesAsUnion;
    var all, m := Merged(ds, ms), Contents(Leaves(ms));
    var union := Answers(ds) + m;
    forall k
      ensures MapAt(Answers(all), k) == MapAt(union, k) <==> MergesAsUnion(ds, ms, k)
      ensures k !in m ==> MergesAsUnion(ds, ms, k)
    {
      MergedLookup(base, ds, ms, k);
      AnswersAreScans(base, all, k);
      AnswersAreScans(base, ds, k);
      LookupIsContents(base, ms, k);
      UnstoredIsUnion(base, ds, ms, k);
    }
    SameMaps(Answers(all), union);
  }

  function MapAt(m: map<Str, Refs>, k: Str): Option<Refs> {
    if k in m then Some(m[k]) else None
  }

  lemma SameMaps(m: map<Str, Refs>, n: map<Str, Refs>)
    ensures m == n <==> forall k :: MapAt(m, k) == MapAt(n, k)
  {
    if forall k :: MapAt(m, k) == MapAt(n, k) {
      forall k ensures k in m <==> k in n ensures k in m ==> m[k] == n[k] {
        assert MapAt(m, k) == MapAt(n, k);
      }
    }
  }

  lemma UnstoredIsUnion(base: Str, ds: seq<Entry>, ms: seq<Entry>, key: Str)
    requires ValidEntries(base, ms)
    ensures Lookup(ms, key).None? ==> MergesAsUnion(ds, ms, key)
  {
    FirstEmpty(base, ms);
  }

  /** On a fresh index every key keeps its answer, but for the empty one. */
  lemma FlushedLookup(base: Str, ms: seq<Entry>, key: Str)
    requires ValidEntries(base, ms)
    ensures ValidEntries(base, Merged([], ms))
    ensures Lookup(Merged([], ms), key) == Lookup(ms, key) <==> SurvivesFlush(ms, key)
  {
    MergedIsValid(base, [], ms);
    MergedLookup(base, [], ms, key);
    ScanIsFind(base, Merged([], ms), key);
    NothingTakes(key);
  }

  /** A root merged with itself, as when a batch was put on disk at once and is then written:
      only its empty-named leaves are added again. */
  lemma RewrittenLookup(base: Str, es: seq<Entry>, key: Str)
    requires ValidEntries(base, es)
    ensures ValidEntries(base, Merged(es, es))
    ensures Lookup(Merged(es, es), key) == Lookup(es, key) <==> SurvivesFlush(es, key)
  {
    MergeableSelf(base, es);
    MergedIsValid(base, es, es);
    ValidIsMixed(base, es);
    MergedLookup(base, es, es, key);
    ScanIsFind(base, es, key);
    ScanIsFind(base, Merged(es, es), key);
  }

  lemma {:induction false} RewrittenLength(base: Str, ds: seq<Entry>, ms: seq<Entry>)
    requires ValidEntries(base, ds) && ValidEntries(base, ms) && forall e :: e in ms ==> e in ds
    ensures |Merged(ds, ms)| == |ds| + Empties(ms)
  {
    if ms != [] {
      var init, e := ms[..|ms| - 1], ms[|ms| - 1];
      RewrittenLength(base, ds, init);
      if e.name == [] {
        EmptiesIsUnique(ms, |ms|);
        EmptiesIsUnique(init, |init|);
      } else {
        MergedAgain(ds, ms);
        EmptiesIsUnique(init, Empties(ms));
      }
    }
  }

  // ----- Putting into a merged root -----

  /** The put splits the first entry of its first byte, and the branch that comes of it takes `k`,
      which that entry did not take: an entry behind it may have. */
  predicate TakenOver(es: seq<Entry>, key: Str, k: Str) {
    var i := Slot(es, key);
    && key != [] && i < |es| && !Takes(es[i], key)
    && key[..CommonLength(es[i].name, key)] <= k && !Takes(es[i], k)
  }

  /** The values that a put into a root keeps: those of the first entry of its first byte. */
  function KeptFirst(es: seq<Entry>, key: Str, apnd: bool): Refs {
    var i := Slot(es, key);
    if key != [] && i < |es| then EntryKept(es[i], key, apnd) else []
  }

  /** A put into a root in which entries share first bytes: the key gets its value, and another key
      changes its answer, to none, exactly if the put takes it over. */
  lemma PutOnMixed(base: Str, es: seq<Entry>, key: Str, value: Str, apnd: bool, k: Str)
    requires MixedEntries(base, es)
    ensures MixedEntries(base, Put(base, es, key, value, apnd))
    ensures RefsOf(Scan(Put(base, es, key, value, apnd), k)) ==
            if k == key then Some(KeptFirst(es, key, apnd) + [value])
            else if TakenOver(es, key, k) then None
            else RefsOf(Scan(es, k))
  {
    hide ValidEntry, Slot, Touch, AddSorted, Scan, Taker, EntryScan, ScanSlot;
    var i := Slot(es, key);
    var r := Put(base, es, key, value, apnd);
    ScanIsTaker(es, k);
    ScanIsTaker(r, k);
    if key == [] || i == |es| {
      PutNewOnMixed(base, es, key, value, k);
      assert KeptFirst(es, key, apnd) + [value] == [value];
    } else {
      TouchOnMixed(base, es, i, key, value, apnd, k);
    }
  }

  lemma PutNewOnMixed(base: Str, es: seq<Entry>, key: Str, value: Str, k: Str)
    requires MixedEntries(base, es) && (key == [] || Slot(es, key) == |es|)
    ensures var leaf := LeafOf(key, [value]); var r := AddSorted(es, leaf);
      && MixedEntries(base, r)
      && Taker(r, k) == (if k == key then Some(leaf) else Taker(es, k)) && Takes(leaf, key) && EntryScan(leaf, key) == Some(leaf)
  {
    hide ValidEntry, Slot, AddSorted, ScanSlot;
    var leaf := LeafOf(key, [value]);
    assert ValidEntry(base, leaf) by { LeafIsValidEntry(base, key, value); }
    AddedTaker(base, es, leaf, k);
    if key != [] {
      NoDuplicate(es, leaf);
      NoTaker(base, es, key);
    }
  }

  lemma LeafIsValidEntry(base: Str, key: Str, value: Str)
    ensures ValidEntry(base, LeafOf(key, [value]))
  {
  }

  lemma NoTaker(base: Str, es: seq<Entry>, key: Str)
    requires MixedEntries(base, es) && forall i :: 0 <= i < |es| ==> Head(es[i].name) != Head(key)
    ensures Taker(es, key) == None
  {
    hide ValidEntry;
    forall i | 0 <= i < |es| ensures !Takes(es[i], key) {
      assert ValidEntry(base, es[i]);
      if Takes(es[i], key) {
        TakersHead(base, es[i], key);
      }
    }
    FirstTaker(base, es, key, |es|);
  }

  /** What an entry that a put rewrites answers afterwards, if it takes the key. */
  function AnswerAfter(e: Entry, key: Str, value: Str, apnd: bool, k: Str): Option<Refs> {
    if k == key then Some(EntryKept(e, key, apnd) + [value])
    else if Takes(e, k) then RefsOf(EntryScan(e, k))
    else None
  }

  /** What the rewritten entry takes, and what it answers. */
  lemma TouchTakes(base: Str, e: Entry, key: Str, value: Str, apnd: bool, k: Str)
    requires ValidEntry(base, e) && key != [] && Head(e.name) == Head(key)
    ensures var e' := Touch(base, e, key, value, apnd);
      && ValidEntry(base, e') && Head(e'.name) == Head(e.name) && Takes(e', key)
      && (Takes(e', k) <==> Takes(e, k) || k == key || (!Takes(e, key) && key[..CommonLength(e.name, key)] <= k))
      && (Takes(e', k) ==> RefsOf(EntryScan(e', k)) == AnswerAfter(e, key, value, apnd, k))
  {
    hide Put, Find, ValidEntries, Pair;
    var e' := Touch(base, e, key, value, apnd);
    TouchIsUpdate(base, e, key, value, apnd, k);
    var n := CommonLength(e.name, key);
    TouchShape(base, e, key, value, apnd, k);
    if Takes(e', k) {
      TakersHead(base, e', k);
      ScanOfTaken(base, e', k);
      if Takes(e, k) {
        ScanOfTaken(base, e, k);
      } else {
        NotTaken(base, e, k);
      }
    }
  }

  lemma TouchShape(base: Str, e: Entry, key: Str, value: Str, apnd: bool, k: Str)
    requires ValidEntry(base, e) && key != [] && Head(e.name) == Head(key)
    ensures var e' := Touch(base, e, key, value, apnd); var n := CommonLength(e.name, key);
      && Takes(e', key)
      && (Takes(e', k) <==> Takes(e, k) || k == key || (!Takes(e, key) && key[..n] <= k))
  {
    hide Put, Pair;
    var n := CommonLength(e.name, key);
    assert key[..n] <= key;
    if e.etype.IntermediateEntry? && e.name <= key {
      CommonLengthIsUnique(e.name, key, |e.name|);
    } else if !Takes(e, key) {
      assert key[..n] <= e.name;
    }
  }

  lemma ScanOfTaken(base: Str, e: Entry, k: Str)
    requires ValidEntry(base, e) && Takes(e, k)
    ensures EntryScan(e, k) == EntryFind(e, k)
  {
    if e.etype.IntermediateEntry? {
      ScanIsFind(base + e.name, e.manifest.value.entries, k[|e.name|..]);
    }
  }

  lemma NotTaken(base: Str, e: Entry, k: Str)
    requires ValidEntry(base, e) && !Takes(e, k)
    ensures EntryFind(e, k) == None
  {
  }

  lemma TouchOnMixed(base: Str, es: seq<Entry>, i: nat, key: Str, value: Str, apnd: bool, k: Str)
    requires MixedEntries(base, es) && key != [] && i == Slot(es, key) && i < |es|
    ensures var e' := Touch(base, es[i], key, value, apnd); var r := es[i := e'];
      && MixedEntries(base, r)
      && Taker(r, k) == (if Takes(e', k) then Some(e') else Taker(es, k))
      && (Takes(es[i], k) ==> Taker(es, k) == Some(es[i]))
      && Takes(e', key)
      && (Takes(e', k) <==> Takes(es[i], k) || k == key || TakenOver(es, key, k))
      && (Takes(e', k) ==> RefsOf(EntryScan(e', k)) == AnswerAfter(es[i], key, value, apnd, k))
  {
    hide ValidEntry, Touch, ScanSlot, Taker, EntryScan, EntryKept, Takes;
    var e, e' := es[i], Touch(base, es[i], key, value, apnd);
    assert ValidEntry(base, e);
    TouchTakes(base, e, key, value, apnd, k);
    var r := es[i := e'];
    assert forall j :: 0 <= j < i ==> Head(es[j].name) < Head(key);
    assert MixedEntries(base, r);
    TakerAt(base, es, i, k);
    TakerAt(base, r, i, k);
    if !Takes(e', k) {
      TakerBeside(base, es, r, i, k);
    }
  }

  /** An entry that is the first of its first byte is where the scan ends, if it takes the key. */
  lemma TakerAt(base: Str, es: seq<Entry>, i: nat, k: Str)
    requires MixedEntries(base, es) && i < |es| && forall j :: 0 <= j < i ==> Head(es[j].name) < Head(es[i].name)
    ensures Takes(es[i], k) ==> Taker(es, k) == Some(es[i])
  {
    hide ValidEntry;
    if Takes(es[i], k) {
      assert ValidEntry(base, es[i]);
      TakersHead(base, es[i], k);
      forall j | 0 <= j < i ensures !Takes(es[j], k) {
        assert ValidEntry(base, es[j]);
        if Takes(es[j], k) {
          TakersHead(base, es[j], k);
        }
      }
      FirstTaker(base, es, k, i);
    }
  }

  lemma TakerBeside(base: Str, es: seq<Entry>, r: seq<Entry>, i: nat, k: Str)
    requires MixedEntries(base, es) && MixedEntries(base, r) && i < |es| == |r| && !Takes(es[i], k) && !Takes(r[i], k)
    requires forall j :: 0 <= j < |es| && j != i ==> r[j] == es[j]
    ensures Taker(r, k) == Taker(es, k)
  {
    hide ValidEntry, Takes, Taker;
    var x := FirstTakerIn(base, es, k);
    FirstTaker(base, r, k, x);
  }

  // ----- The stored form of a merge -----

  function Strip(e: Entry): Entry {
    e.(manifest := None)
  }

  function StripAll(es: seq<Entry>): (r: seq<Entry>)
    ensures |r| == |es| && forall i :: 0 <= i < |es| ==> r[i] == Strip(es[i])
  {
    seq(|es|, i requires 0 <= i < |es| => Strip(es[i]))
  }

  lemma StripOfInsert(es: seq<Entry>, p: nat, e: Entry)
    requires p <= |es|
    ensures StripAll(InsertAt(es, p, e)) == InsertAt(StripAll(es), p, Strip(e))
  {
    var l, r := StripAll(InsertAt(es, p, e)), InsertAt(StripAll(es), p, Strip(e));
    forall i | 0 <= i < |r| ensures l[i] == r[i] {
      if i < p {
      } else if i > p {
        assert InsertAt(es, p, e)[i] == es[i - 1];
      }
    }
  }

  lemma StripOfAdd(es: seq<Entry>, e: Entry)
    ensures StripAll(AddSorted(es, e)) == AddSorted(StripAll(es), Strip(e))
  {
    hide AddSorted, InsertPosition, Duplicate;
    AddSortedAlike(StripAll(es), es, Strip(e), e);
    if e.name == [] {
      StripOfInsert(es, 0, e);
    } else if !Duplicate(es, e) {
      StripOfInsert(es, InsertPosition(es, e.name), e);
    }
  }

  lemma {:induction false} StripOfMerged(ds: seq<Entry>, ms: seq<Entry>)
    ensures StripAll(Merged(ds, ms)) == Merged(StripAll(ds), StripAll(ms))
  {
    if ms != [] {
      var init, e := ms[..|ms| - 1], ms[|ms| - 1];
      StripOfMerged(ds, init);
      StripOfAdd(Merged(ds, init), e);
      assert StripAll(ms)[..|ms| - 1] == StripAll(init);
    }
  }

  /** The two entries stand at one position of the two lists. */
  predicate PairIn(e: Entry, f: Entry, es: seq<Entry>, fs: seq<Entry>) {
    exists i :: 0 <= i < |es| && i < |fs| && es[i] == e && fs[i] == f
  }

  /** `rs` and `qs` pair up as the entries of the disk and of the batch do. */
  predicate Paired(rs: seq<Entry>, qs: seq<Entry>, es: seq<Entry>, ds: seq<Entry>, ns: seq<Entry>, ms: seq<Entry>) {
    Alike(rs, qs) && forall k :: 0 <= k < |qs| ==> PairIn(rs[k], qs[k], es, ds) || PairIn(rs[k], qs[k], ns, ms)
  }

  lemma PairedInsert(rs: seq<Entry>, qs: seq<Entry>, p: nat, e: Entry, f: Entry,
                     es: seq<Entry>, ds: seq<Entry>, ns: seq<Entry>, ms: seq<Entry>)
    requires Paired(rs, qs, es, ds, ns, ms) && PairIn(e, f, ns, ms) && Alike([e], [f]) && p <= |qs|
    ensures Paired(InsertAt(rs, p, e), InsertAt(qs, p, f), es, ds, ns, ms)
  {
    hide PairIn;
    assert [e][0] == e && [f][0] == f;
    var rs', qs' := InsertAt(rs, p, e), InsertAt(qs, p, f);
    forall k | 0 <= k < |qs'|
      ensures rs'[k].name == qs'[k].name && rs'[k].etype == qs'[k].etype && rs'[k].ref == qs'[k].ref
      ensures PairIn(rs'[k], qs'[k], es, ds) || PairIn(rs'[k], qs'[k], ns, ms)
    {
      if k < p {
        assert rs'[k] == rs[k] && qs'[k] == qs[k];
      } else if k > p {
        assert rs'[k] == rs[k - 1] && qs'[k] == qs[k - 1];
      }
    }
  }

  lemma PairedMore(rs: seq<Entry>, qs: seq<Entry>, es: seq<Entry>, ds: seq<Entry>, ns: seq<Entry>, ms: seq<Entry>)
    requires |ns| == |ms| > 0 && Paired(rs, qs, es, ds, ns[..|ns| - 1], ms[..|ms| - 1])
    ensures Paired(rs, qs, es, ds, ns, ms)
  {
    forall k | 0 <= k < |qs| ensures PairIn(rs[k], qs[k], es, ds) || PairIn(rs[k], qs[k], ns, ms) {
      if PairIn(rs[k], qs[k], ns[..|ns| - 1], ms[..|ms| - 1]) {
        var i :| 0 <= i < |ns| - 1 && i < |ms| - 1 && ns[..|ns| - 1][i] == rs[k] && ms[..|ms| - 1][i] == qs[k];
        assert ns[i] == rs[k] && ms[i] == qs[k];
      }
    }
  }

  /** A merge of two stored roots and the merge of the roots they stand for put the entries in
      the same places. */
  lemma {:induction false} MergedPairs(es: seq<Entry>, ds: seq<Entry>, ns: seq<Entry>, ms: seq<Entry>)
    requires Alike(es, ds) && Alike(ns, ms)
    ensures Paired(Merged(es, ns), Merged(ds, ms), es, ds, ns, ms)
  {
    hide Paired, AddSorted, InsertPosition, Duplicate;
    if ms != [] {
      var n := |ms| - 1;
      var rs, qs := Merged(es, ns[..n]), Merged(ds, ms[..n]);
      MergedPairs(es, ds, ns[..n], ms[..n]);
      PairedMore(rs, qs, es, ds, ns, ms);
      PairedIsAlike(rs, qs, es, ds, ns, ms);
      assert Alike([ns[n]], [ms[n]]);
      AddSortedAlike(rs, qs, ns[n], ms[n]);
      assert PairIn(ns[n], ms[n], ns, ms);
      if ms[n].name == [] || !Duplicate(qs, ms[n]) {
        var p := if ms[n].name == [] then 0 else InsertPosition(qs, ms[n].name);
        PairedInsert(rs, qs, p, ns[n], ms[n], es, ds, ns, ms);
      }
    } else {
      DiskPairs(es, ds, ns, ms);
    }
  }

  lemma PairedIsAlike(rs: seq<Entry>, qs: seq<Entry>, es: seq<Entry>, ds: seq<Entry>, ns: seq<Entry>, ms: seq<Entry>)
    requires Paired(rs, qs, es, ds, ns, ms)
    ensures Alike(rs, qs)
  {
  }

  lemma DiskPairs(es: seq<Entry>, ds: seq<Entry>, ns: seq<Entry>, ms: seq<Entry>)
    requires Alike(es, ds)
    ensures Paired(es, ds, es, ds, ns, ms)
  {
    forall k | 0 <= k < |ds| ensures PairIn(es[k], ds[k], es, ds) {
    }
  }

  /** Merging the stored entries represents the merged tree, once every entry does. */
  lemma MergedRep(flat: bool, s: Blobs, base: Str, es: seq<Entry>, ds: seq<Entry>, ns: seq<Entry>, ms: seq<Entry>)
    requires RepEntries(flat, s, base, es, ds) && RepEntries(flat, s, base, ns, ms)
    ensures RepEntries(flat, s, base, Merged(es, ns), Merged(ds, ms))
  {
    hide RepEntry, Merged;
    RepIsAlike(flat, s, base, es, ds);
    RepIsAlike(flat, s, base, ns, ms);
    MergedPairs(es, ds, ns, ms);
    var rs, qs := Merged(es, ns), Merged(ds, ms);
    forall k | 0 <= k < |qs| ensures RepEntry(flat, s, base, rs[k], qs[k]) {
      assert PairIn(rs[k], qs[k], es, ds) || PairIn(rs[k], qs[k], ns, ms);
    }
  }

  /** As long as only the entries that were on disk can be trusted, the merged root answers as
      before every key that an entry on disk takes, and every key that no batch entry takes. */
  lemma PartlyMerged(s: Blobs, root: Manifest, t: Manifest, es: seq<Entry>, ds: seq<Entry>, ns: seq<Entry>, ms: seq<Entry>,
                     key: Str)
    requires RepEntries(false, s, t.name, es, ds) && Alike(ns, ms) && MixedEntries(t.name, ds) && ValidEntries(t.name, ms)
    requires StripAll(es) == es && StripAll(ns) == ns && root.name == t.name
    requires root.entries == Merged(es, ns) && t.entries == Merged(ds, ms)
    requires (key != [] && Taker(ds, key).Some?) || Taker(ms, key).None?
    ensures Answer(s, root, key) == RefsOf(Scan(ds, key))
  {
    hide RepEntry, Merged, EntryScan, ValidEntry, Answer, ScanSlot, Takes;
    RepIsAlike(false, s, t.name, es, ds);
    MergedPairs(es, ds, ns, ms);
    MergedTaker(t.name, ds, ms, key);
    NoEmpties(t.name, ms, key);
    assert Taker(t.entries, key) == Taker(ds, key);
    ScanIsTaker(t.entries, key);
    ScanIsTaker(ds, key);
    var i := ScanSlot(t.entries, key);
    if i < |t.entries| && Takes(t.entries[i], key) {
      var x :| 0 <= x < |ds| && ds[x] == t.entries[i];
      MergedStripped(es, ns);
      SameStored(root.entries, t.entries, i, es, ds, x);
      assert ValidEntry(t.name, ds[x]);
    }
    LocateAt(s, root, t, key);
  }

  lemma NoEmpties(base: Str, ms: seq<Entry>, key: Str)
    requires ValidEntries(base, ms)
    ensures key == [] && Taker(ms, key).None? ==> Empties(ms) == 0
  {
    if key == [] && Empties(ms) > 0 {
      OldestIsLeaf(base, ms);
      ValidIsMixed(base, ms);
      var i := FirstTakerIn(base, ms, key);
    }
  }

  lemma MergedStripped(es: seq<Entry>, ns: seq<Entry>)
    requires StripAll(es) == es && StripAll(ns) == ns
    ensures StripAll(Merged(es, ns)) == Merged(es, ns)
  {
    StripOfMerged(es, ns);
  }

  /** Stripped entries that stand for one entry are one entry. */
  lemma SameStored(rs: seq<Entry>, qs: seq<Entry>, i: nat, es: seq<Entry>, ds: seq<Entry>, x: nat)
    requires Alike(rs, qs) && Alike(es, ds) && StripAll(rs) == rs && StripAll(es) == es
    requires i < |qs| && x < |ds| && qs[i] == ds[x]
    ensures rs[i] == es[x]
  {
    assert rs[i] == StripAll(rs)[i] && es[x] == StripAll(es)[x];
  }

  // ----- The branches of the batch root -----

  function Children(es: seq<Entry>): seq<Manifest> {
    if es == [] then []
    else
      var e := es[|es| - 1];
      Children(es[..|es| - 1]) + if e.manifest.Some? then [e.manifest.value] else []
  }

  lemma {:induction false} ChildrenTake(es: seq<Entry>, i: nat)
    requires i < |es|
    ensures Children(es[..i]) <= Children(es[..i + 1]) <= Children(es)
    ensures Children(es[..i + 1]) == Children(es[..i]) + if es[i].manifest.Some? then [es[i].manifest.value] else []
    decreases |es| - i
  {
    assert es[..i + 1][..i] == es[..i];
    if i + 1 < |es| {
      ChildrenTake(es, i + 1);
    } else {
      assert es[..i + 1] == es;
    }
  }

  lemma {:induction false} ChildrenFrom(base: Str, es: seq<Entry>, k: nat) returns (j: nat)
    requires ValidEntries(base, es) && k < |Children(es)|
    ensures j < |es| && es[j].etype.IntermediateEntry? && es[j].manifest == Some(Children(es)[k])
    ensures k >= |Children(es[..|es| - 1])| ==> j == |es| - 1
    ensures k < |Children(es[..|es| - 1])| ==> j < |es| - 1
  {
    var init := es[..|es| - 1];
    if k < |Children(init)| {
      j := ChildrenFrom(base, init, k);
    } else {
      j := |es| - 1;
      assert ValidEntry(base, es[j]);
    }
  }

  /** The branches of one node are whole trees with names apart. */
  lemma {:induction false} ChildrenStackable(base: Str, es: seq<Entry>)
    requires ValidEntries(base, es)
    ensures Stackable(Children(es))
    ensures forall j :: 0 <= j < |es| && es[j].manifest.Some? ==> es[j].manifest.value in Children(es)
  {
    if es != [] {
      var init, e := es[..|es| - 1], es[|es| - 1];
      ChildrenStackable(base, init);
      assert ValidEntry(base, e);
      if e.manifest.Some? {
        var all := Children(es);
        forall k | 0 <= k < |Children(init)| ensures Apart(all[k].name, e.manifest.value.name) {
          var j := ChildrenFrom(base, init, k);
          assert ValidEntry(base, es[j]);
          ApartByHead(base, es[j].name, e.name);
        }
      }
    }
  }

  /** A batch root as the flush can take it: its branches are whole trees with names apart, below
      the root, or are all on disk. */
  predicate Flushable(base: Str, es: seq<Entry>) {
    && (forall i :: 0 <= i < |es| && es[i].etype.LeafEntry? ==> es[i].manifest.None?)
    && Stackable(Children(es)) && forall k :: 0 <= k < |Children(es)| ==> base < Children(es)[k].name
  }

  lemma ValidIsFlushable(base: Str, es: seq<Entry>)
    requires ValidEntries(base, es)
    ensures Flushable(base, es)
  {
    ChildrenStackable(base, es);
    forall i | 0 <= i < |es| && es[i].etype.LeafEntry? ensures es[i].manifest.None? {
      assert ValidEntry(base, es[i]);
    }
    forall k | 0 <= k < |Children(es)| ensures base < Children(es)[k].name {
      var j := ChildrenFrom(base, es, k);
      assert ValidEntry(base, es[j]);
    }
  }

  lemma {:induction false} FlatIsFlushable(base: Str, es: seq<Entry>)
    requires StripAll(es) == es
    ensures Children(es) == [] && Flushable(base, es)
  {
    assert forall i :: 0 <= i < |es| ==> es[i] == StripAll(es)[i];
    if es != [] {
      assert StripAll(es[..|es| - 1]) == es[..|es| - 1];
      FlatIsFlushable(base, es[..|es| - 1]);
    }
  }

  /** No name that a lookup on disk reads is the name of a node of the stacked trees. */
  ghost predicate Undisturbed(s: Blobs, disk: Manifest, d: Manifest, kids: seq<Manifest>) {
    forall n :: Reads(s, disk, d, n) ==> !InStack(kids, n)
  }

  /** That is so if the two trees have no branch to nodes of one name. */
  lemma DisjointIsUndisturbed(s: Blobs, disk: Manifest, d: Manifest, base: Str, ms: seq<Entry>)
    requires Rep(false, s, disk, d) && MixedTree(d) && ValidEntries(base, ms)
    requires forall n :: !(Reaches(d.entries, n) && Reaches(ms, n))
    ensures Undisturbed(s, disk, d, Children(ms))
  {
    forall n | Reads(s, disk, d, n) ensures !InStack(Children(ms), n) {
      if !Reaches(d.entries, n) {
        UnreachedIsUnread(false, s, disk, d, n);
      }
      if InStack(Children(ms), n) {
        var k :| 0 <= k < |Children(ms)| && HasNode(Children(ms)[k], n);
        var j := ChildrenFrom(base, ms, k);
        NodeBelow(ms, j, n);
      }
    }
  }

  /** A branch on disk whose name a branch of the batch has as well keeps its meaning if and only if
      both lead to the same tree: the node of the batch is stored over the node on disk. */
  lemma SameNameIsSameBranch(s: Blobs, base: Str, e: Entry, f: Entry, kid: Manifest)
    requires ValidEntry(base, f) && f.manifest.Some? && e == Strip(f)
    requires ValidTree(kid) && kid.name == base + f.name && Saved(s, kid)
    ensures RepEntry(false, s, base, e, f) <==> f.manifest.value == kid
  {
    if RepEntry(false, s, base, e, f) {
      RepIsUniqueTree(false, false, s, s[kid.name], kid, f.manifest.value);
    }
  }

  /** Whatever a write has stored so far, the root that was on disk means what it meant. */
  lemma DiskUntouched(s0: Blobs, s: Blobs, disk: Manifest, d: Manifest, kids: seq<Manifest>)
    requires Rep(false, s0, disk, d) && MixedTree(d)
    requires Undisturbed(s0, disk, d, kids) && SameBut(d.name, kids, s0, s)
    ensures Rep(false, s, disk, d)
  {
    forall n | Reads(s0, disk, d, n) ensures SameAt(s0, s, n) {
      if !Reaches(d.entries, n) {
        UnreachedIsUnread(false, s0, disk, d, n);
      }
      ReachedNames(d.name, d.entries, n);
    }
    UnreadIsHidden(false, s0, s, disk, d);
  }

  /** After the last write, the stripped batch root stands for the batch: its branches are saved
      under their own names. */
  lemma BatchSaved(s: Blobs, base: Str, ms: seq<Entry>)
    requires ValidEntries(base, ms) && forall k :: 0 <= k < |Children(ms)| ==> Saved(s, Children(ms)[k])
    ensures RepEntries(false, s, base, StripAll(ms), ms)
  {
    ChildrenStackable(base, ms);
    forall i | 0 <= i < |ms| ensures RepEntry(false, s, base, StripAll(ms)[i], ms[i]) {
      assert ValidEntry(base, ms[i]);
      if ms[i].manifest.Some? {
        assert Saved(s, ms[i].manifest.value);
      }
    }
  }

  /** A batch root whose branches are all on disk: nothing but the root is written. */
  lemma BatchOnDisk(s0: Blobs, s: Blobs, m: Manifest, t: Manifest)
    requires Rep(true, s0, m, t) && ValidTree(t) && SameBut(t.name, [], s0, s)
    ensures Rep(true, s, m, t) && RepEntries(false, s, t.name, m.entries, t.entries)
  {
    forall n | t.name <= n && n != t.name ensures SameAt(s0, s, n) {
      assert !InStack([], n);
    }
    RepFrameTree(true, s0, s, m, t);
    FlatIsRepTree(s, m, t);
  }

  lemma FlatIsStripped(s: Blobs, m: Manifest, t: Manifest)
    requires Rep(true, s, m, t) && ValidTree(t)
    ensures StripAll(m.entries) == m.entries
  {
    forall i | 0 <= i < |m.entries| ensures StripAll(m.entries)[i] == m.entries[i] {
      assert RepEntry(true, s, t.name, m.entries[i], t.entries[i]) && ValidEntry(t.name, t.entries[i]);
    }
  }

  /** The merged, stripped root stands for the merged tree, once the entries of both do. */
  lemma WrittenRep(flat: bool, s: Blobs, base: Str, es: seq<Entry>, ds: seq<Entry>, ns: seq<Entry>, ms: seq<Entry>)
    requires RepEntries(flat, s, base, es, ds) && StripAll(es) == es
    requires RepEntries(flat, s, base, StripAll(ns), ms)
    ensures RepEntries(flat, s, base, StripAll(Merged(es, ns)), Merged(ds, ms))
  {
    MergedRep(flat, s, base, es, ds, StripAll(ns), ms);
    StripOfMerged(es, ns);
  }

  function MergedTree(d: Manifest, m: Manifest): Manifest {
    Manifest(d.name, m.mutable, Merged(d.entries, m.entries))
  }

  /** The root that a write leaves: both lists of entries merged, every child by name. */
  function MergedRoot(disk: Manifest, mem: Manifest): Manifest {
    Manifest(disk.name, mem.mutable, StripAll(Merged(disk.entries, mem.entries)))
  }

  /** Only the root and nodes of the batch's branches have changed. */
  ghost predicate SameBut(base: Str, kids: seq<Manifest>, s: Blobs, s': Blobs) {
    forall n :: n != base && !InStack(kids, n) ==> SameAt(s, s', n)
  }

  lemma NothingOutside(p: Str, s: Blobs)
    ensures SameOutside(s, s, p)
  {
  }

  /** All that a write changes has the name of the index or extends it. */
  lemma WriteIsBelow(base: Str, es: seq<Entry>, s: Blobs, s': Blobs)
    requires Flushable(base, es) && SameBut(base, Children(es), s, s')
    ensures SameOutside(s, s', base)
  {
    hide HasNode;
    forall n | !(base <= n) ensures SameAt(s, s', n) {
      if InStack(Children(es), n) {
        var k :| 0 <= k < |Children(es)| && HasNode(Children(es)[k], n);
        NodesStart(Children(es)[k], n);
        LongerPrefix(base, Children(es)[k].name, n);
      }
    }
  }

  lemma KidsAreBelow(base: Str, es: seq<Entry>)
    requires Flushable(base, es)
    ensures !InStack(Children(es), base)
  {
    forall k | 0 <= k < |Children(es)| ensures !HasNode(Children(es)[k], base) {
      if HasNode(Children(es)[k], base) {
        NodesStart(Children(es)[k], base);
      }
    }
  }

  lemma RootStored(s0: Blobs, s1: Blobs, s2: Blobs, root: Manifest, es: seq<Entry>, stack: seq<Manifest>)
    requires Flushable(root.name, es) && (s2 == s1[root.name := root] || s2 == s1)
    requires StoredRound(s1, Children(es), |Children(es)|, stack) && OnlyStack(s0, s1, Children(es))
    ensures StoredRound(s2, Children(es), |Children(es)|, stack)
    ensures SameBut(root.name, Children(es), s0, s2)
  {
    hide Cut, Whole, Height, HasNode;
    var kids := Children(es);
    KidsAreBelow(root.name, es);
    forall n | n != root.name && !InStack(kids, n) ensures SameAt(s0, s2, n) {
      assert SameAt(s0, s1, n);
    }
    forall j | 0 <= j < |kids| ensures StoredTree(s2, kids[j], stack) {
      assert StoredTree(s1, kids[j], stack);
      if Shallow(kids[j]) {
        forall n | HasNode(kids[j], n) ensures SameAt(s1, s2, n) {
          assert InStack(kids, n);
        }
        WholeFrame(s1, s2, kids[j]);
      }
    }
  }

  /** Whatever has changed beside the root is a node of the batch, and what is stored stands for it. */
  ghost predicate WrittenNodes(base: Str, kids: seq<Manifest>, s: Blobs, s': Blobs) {
    forall n :: n != base ==> SameAt(s, s', n) || SavedNode(s', StackAt(kids, n), n)
  }

  /** Whatever has changed beside the root is a node of the batch, perhaps without some branches. */
  ghost predicate CutNodes(base: Str, kids: seq<Manifest>, s: Blobs, s': Blobs) {
    forall n :: n != base ==> SameAt(s, s', n) || CutNode(s', StackAt(kids, n), n)
  }

  lemma NothingCut(base: Str, kids: seq<Manifest>, s: Blobs)
    ensures CutNodes(base, kids, s, s)
  {
  }

  lemma CutWrite(s0: Blobs, s1: Blobs, s2: Blobs, s3: Blobs, root: Manifest, es: seq<Entry>, stack: seq<Manifest>)
    requires Flushable(root.name, es) && (s2 == s1[root.name := root] || s2 == s1)
    requires CutStack(s0, s1, Children(es)) && CutStack(s2, s3, stack)
    requires Stackable(stack) && NextRound(Children(es), stack)
    ensures CutNodes(root.name, Children(es), s0, s3)
  {
    hide CutNode, StackAt, Stackable, NextRound;
    var kids := Children(es);
    forall n | n != root.name ensures SameAt(s0, s3, n) || CutNode(s3, StackAt(kids, n), n) {
      if !SameAt(s2, s3, n) {
        assert CutNode(s3, StackAt(stack, n), n);
        CutIsNode(s3, StackAt(stack, n), n);
        NextNode(kids, stack, n);
      } else if !SameAt(s0, s1, n) {
        SameCut(s1, s3, StackAt(kids, n), n);
      }
    }
  }

  lemma CutIsNode(s: Blobs, o: Option<Manifest>, n: Str)
    requires CutNode(s, o, n)
    ensures o.Some?
  {
  }

  lemma WrittenRound(s0: Blobs, s1: Blobs, s2: Blobs, s3: Blobs, root: Manifest, es: seq<Entry>, stack: seq<Manifest>)
    requires Flushable(root.name, es) && (s2 == s1[root.name := root] || s2 == s1)
    requires StoredStack(s0, s1, Children(es), stack) && SavedStack(s2, s3, stack)
    requires Stackable(stack) && NextRound(Children(es), stack) && forall k :: 0 <= k < |stack| ==> Saved(s3, stack[k])
    ensures WrittenNodes(root.name, Children(es), s0, s3)
  {
    hide Cut, NodeAt, StackAt, Stackable, Saved, Rep;
    var kids := Children(es);
    forall n | n != root.name ensures SameAt(s0, s3, n) || SavedNode(s3, StackAt(kids, n), n) {
      if !SameAt(s2, s3, n) {
        assert SavedNode(s3, StackAt(stack, n), n);
        NextNode(kids, stack, n);
      } else if !SameAt(s0, s1, n) {
        assert StoredNode(s1, StackAt(kids, n), n, stack);
        StackAtIsValid(kids, n) by { StackedIsValid(kids); }
        CutRepTree(s3, s3[n], StackAt(kids, n).value, stack);
      }
    }
  }

  lemma NothingStacked(now: seq<Manifest>, next: seq<Manifest>)
    requires NextRound(now, next)
    ensures now == [] ==> next == []
  {
    if next != [] {
      assert HasAncestor(next[0], now);
    }
  }

  lemma SameEverywhere(s: Blobs, s': Blobs)
    requires OnlyStack(s, s', [])
    ensures s == s'
  {
    forall n ensures n in s <==> n in s' ensures n in s ==> s[n] == s'[n] {
      assert !InStack([], n);
      assert SameAt(s, s', n);
    }
  }

  lemma FlushDone(s0: Blobs, s2: Blobs, s3: Blobs, base: Str, es: seq<Entry>, stack: seq<Manifest>)
    requires Flushable(base, es) && SameBut(base, Children(es), s0, s2) && NextRound(Children(es), stack)
    requires OnlyStack(s2, s3, stack)
    ensures SameAt(s2, s3, base) && SameBut(base, Children(es), s0, s3)
  {
    hide Stackable;
    var kids := Children(es);
    KidsAreBelow(base, es);
    forall n | !InStack(kids, n) ensures SameAt(s2, s3, n) {
      if InStack(stack, n) {
        NextRoundIsWithin(kids, stack, n);
      }
    }
    forall n | n != base && !InStack(kids, n) ensures SameAt(s0, s3, n) {
      assert SameAt(s0, s2, n) && SameAt(s2, s3, n);
    }
  }

  // ----- What a write makes of the tree on disk -----

  /** The node that lookups on disk read under this name has been replaced by a node of the batch. */
  ghost predicate Replaced(s: Blobs, s': Blobs, kids: seq<Manifest>, n: Str) {
    !SameAt(s, s', n) && StackAt(kids, n).Some?
  }

  /** A branch on disk after the write: whatever is read by name and was replaced is the node of the
      batch, with all that is below it there. */
  ghost function GraftedEntry(s: Blobs, s': Blobs, kids: seq<Manifest>, base: Str, e: Entry, f: Entry): Entry
    decreases f, 0
  {
    if f.manifest.None? then f
    else if e.manifest.None? && Replaced(s, s', kids, base + f.name) then
      f.(manifest := Some(StackAt(kids, base + f.name).value))
    else if Child(s, base, e).None? then f
    else
      var d := f.manifest.value;
      f.(manifest := Some(d.(entries := GraftedEntries(s, s', kids, d.name, Child(s, base, e).value.entries, d.entries))))
  }

  ghost function GraftedEntries(s: Blobs, s': Blobs, kids: seq<Manifest>, base: Str, es: seq<Entry>, fs: seq<Entry>): seq<Entry>
    decreases fs, |fs|
  {
    if es == [] || fs == [] then fs
    else [GraftedEntry(s, s', kids, base, es[0], fs[0])] + GraftedEntries(s, s', kids, base, es[1..], fs[1..])
  }

  /** The tree on disk after the write. */
  ghost function Grafted(s: Blobs, s': Blobs, kids: seq<Manifest>, m: Manifest, t: Manifest): Manifest {
    t.(entries := GraftedEntries(s, s', kids, t.name, m.entries, t.entries))
  }

  lemma {:induction false} GraftedAt(s: Blobs, s': Blobs, kids: seq<Manifest>, base: Str, es: seq<Entry>, fs: seq<Entry>)
    requires |es| == |fs|
    ensures var gs := GraftedEntries(s, s', kids, base, es, fs);
      |gs| == |fs| && forall i :: 0 <= i < |fs| ==> gs[i] == GraftedEntry(s, s', kids, base, es[i], fs[i])
  {
    if fs != [] {
      GraftedAt(s, s', kids, base, es[1..], fs[1..]);
    }
  }

  lemma {:induction false} GraftedRep(s: Blobs, s': Blobs, root: Str, kids: seq<Manifest>, base: Str, e: Entry, f: Entry)
    requires RepEntry(false, s, base, e, f) && ValidEntry(base, f) && root <= base
    requires WrittenNodes(root, kids, s, s') && forall k :: 0 <= k < |kids| ==> ValidTree(kids[k])
    ensures var g := GraftedEntry(s, s', kids, base, e, f);
      RepEntry(false, s', base, e, g) && ValidEntry(base, g) && g.name == f.name
    decreases f
  {
    hide StackAt, Ordered;
    if f.manifest.Some? {
      var d, n := f.manifest.value, base + f.name;
      var c := Child(s, base, e).value;
      assert n != root;
      StackAtIsValid(kids, n);
      if e.manifest.None? && Replaced(s, s', kids, n) {
        assert SavedNode(s', StackAt(kids, n), n);
      } else {
        assert e.manifest.None? ==> SameAt(s, s', n);
        GraftedAt(s, s', kids, d.name, c.entries, d.entries);
        var gs := GraftedEntries(s, s', kids, d.name, c.entries, d.entries);
        forall i | 0 <= i < |d.entries|
          ensures RepEntry(false, s', d.name, c.entries[i], gs[i]) && ValidEntry(d.name, gs[i]) && gs[i].name == d.entries[i].name
        {
          assert ValidEntry(d.name, d.entries[i]);
          assert root <= d.name by { assert d.name[..|root|] == root; }
          GraftedRep(s, s', root, kids, d.name, c.entries[i], d.entries[i]);
        }
        SameHeads(d.entries, gs);
        Regrown(s', base, e, f, c, gs);
      }
    }
  }

  /** A branch with other entries below it. */
  lemma Regrown(s: Blobs, base: Str, e: Entry, f: Entry, c: Manifest, gs: seq<Entry>)
    requires e.name == f.name && e.etype == f.etype == IntermediateEntry && e.ref == f.ref && f.name != [] && f.manifest.Some?
    requires Child(s, base, e) == Some(c) && c.name == f.manifest.value.name == base + f.name
    requires c.mutable == f.manifest.value.mutable && |c.entries| == |gs| && Ordered(gs)
    requires forall i :: 0 <= i < |gs| ==> RepEntry(false, s, c.name, c.entries[i], gs[i]) && ValidEntry(c.name, gs[i])
    ensures var g := f.(manifest := Some(f.manifest.value.(entries := gs)));
      RepEntry(false, s, base, e, g) && ValidEntry(base, g)
  {
  }

  lemma SameHeads(fs: seq<Entry>, gs: seq<Entry>)
    requires |fs| == |gs| && forall i :: 0 <= i < |fs| ==> gs[i].name == fs[i].name
    ensures Ordered(fs) ==> Ordered(gs)
  {
  }

  /** The stored root stands for the grafted tree. */
  lemma GraftedRoot(s: Blobs, s': Blobs, kids: seq<Manifest>, m: Manifest, t: Manifest)
    requires Rep(false, s, m, t) && MixedTree(t)
    requires WrittenNodes(t.name, kids, s, s') && forall k :: 0 <= k < |kids| ==> ValidTree(kids[k])
    ensures Rep(false, s', m, Grafted(s, s', kids, m, t)) && MixedTree(Grafted(s, s', kids, m, t))
    ensures ValidTree(t) ==> ValidTree(Grafted(s, s', kids, m, t))
  {
    hide RepEntry, ValidEntry, GraftedEntry, WrittenNodes;
    GraftedAt(s, s', kids, t.name, m.entries, t.entries);
    var gs := GraftedEntries(s, s', kids, t.name, m.entries, t.entries);
    forall i | 0 <= i < |t.entries|
      ensures RepEntry(false, s', t.name, m.entries[i], gs[i]) && ValidEntry(t.name, gs[i]) && gs[i].name == t.entries[i].name
    {
      GraftedRep(s, s', t.name, kids, t.name, m.entries[i], t.entries[i]);
    }
    SameHeads(t.entries, gs);
  }

  /** If nothing that is read has the name of a node of the batch, it is the tree that it was. */
  lemma {:induction false} GraftedSame(s: Blobs, s': Blobs, kids: seq<Manifest>, m: Manifest, t: Manifest)
    requires Rep(false, s, m, t) && Undisturbed(s, m, t, kids)
    ensures Grafted(s, s', kids, m, t) == t
    decreases t
  {
    hide StackAt;
    GraftedAt(s, s', kids, t.name, m.entries, t.entries);
    var gs := GraftedEntries(s, s', kids, t.name, m.entries, t.entries);
    forall i | 0 <= i < |t.entries| ensures gs[i] == t.entries[i] {
      var e, f := m.entries[i], t.entries[i];
      assert RepEntry(false, s, t.name, e, f);
      if f.manifest.Some? {
        var c, d, n := Child(s, t.name, e).value, f.manifest.value, t.name + f.name;
        StackAtIsNode(kids, n);
        if e.manifest.None? {
          assert ReadsChild(t.name, e, n) && Reads(s, m, t, n);
        }
        forall x | Reads(s, c, d, x) ensures !InStack(kids, x) {
          assert Reads(s, m, t, x);
        }
        GraftedSame(s, s', kids, c, d);
      }
    }
    assert gs == t.entries;
  }

  // ----- A write as a whole -----

  /** What a write starts from: the root `disk`, which stands for `d`, and the batch root `mem`,
      which stands for `t`. It was built in memory, or it was put on disk as it was built. */
  predicate Writing(s: Blobs, disk: Manifest, d: Manifest, mem: Manifest, t: Manifest, inMemory: bool) {
    && Rep(false, s, disk, d) && StripAll(disk.entries) == disk.entries
    && MixedTree(d) && ValidTree(t) && d.name == t.name == mem.name && mem.mutable == t.mutable
    && if inMemory then mem == t else ValidTree(d) && Rep(true, s, disk, d) && Rep(true, s, mem, t)
  }

  lemma WritingIsFlushable(s: Blobs, disk: Manifest, d: Manifest, mem: Manifest, t: Manifest, inMemory: bool)
    requires Writing(s, disk, d, mem, t, inMemory)
    ensures Flushable(mem.name, mem.entries) && Alike(StripAll(mem.entries), t.entries)
    ensures !inMemory ==> Children(mem.entries) == [] && StripAll(mem.entries) == mem.entries
    ensures !inMemory ==> Undisturbed(s, disk, d, Children(mem.entries))
  {
    if inMemory {
      ValidIsFlushable(t.name, t.entries);
    } else {
      FlatIsStripped(s, mem, t);
      FlatIsFlushable(mem.name, mem.entries);
      RepIsAlike(true, s, t.name, mem.entries, t.entries);
    }
  }

  /** A write that has gone through: the batch root stands for the batch, and the merged root for the
      merge of the batch with the tree on disk, in which nodes of the batch stand where they were
      stored over nodes that are read. */
  lemma WriteDone(s0: Blobs, s: Blobs, disk: Manifest, d: Manifest, mem: Manifest, t: Manifest, inMemory: bool)
    requires Writing(s0, disk, d, mem, t, inMemory)
    requires SameBut(d.name, Children(mem.entries), s0, s) && WrittenNodes(d.name, Children(mem.entries), s0, s)
    requires forall k :: 0 <= k < |Children(mem.entries)| ==> Saved(s, Children(mem.entries)[k])
    ensures Rep(!inMemory, s, mem.(entries := StripAll(mem.entries)), t)
    ensures var g := Grafted(s0, s, Children(mem.entries), disk, d);
      && MixedTree(g) && MixedTree(MergedTree(g, t)) && Rep(!inMemory, s, MergedRoot(disk, mem), MergedTree(g, t))
      && (ValidTree(d) ==> ValidTree(g)) && g.name == d.name
      && (Undisturbed(s0, disk, d, Children(mem.entries)) ==> g == d)
      && (ValidTree(g) && Mergeable(g.entries, t.entries) ==> ValidTree(MergedTree(g, t)))
  {
    hide RepEntries, ValidEntries, MixedEntries, Merged, SameBut, Mergeable, StripAll, Undisturbed, Grafted, WrittenNodes;
    WritingIsFlushable(s0, disk, d, mem, t, inMemory);
    var kids := Children(mem.entries);
    var g := Grafted(s0, s, kids, disk, d);
    GraftedRoot(s0, s, kids, disk, d) by { FlushableKids(mem.name, mem.entries); }
    GraftedName(s0, s, kids, disk, d);
    if Undisturbed(s0, disk, d, kids) {
      GraftedSame(s0, s, kids, disk, d);
    }
    MergedTaker(g.name, g.entries, t.entries, []);
    if ValidTree(g) && Mergeable(g.entries, t.entries) {
      MergedIsValid(g.name, g.entries, t.entries);
    }
    if inMemory {
      BatchSaved(s, d.name, t.entries);
    } else {
      BatchOnDisk(s0, s, mem, t);
      BatchOnDisk(s0, s, disk, d);
    }
    WrittenRep(!inMemory, s, d.name, disk.entries, g.entries, mem.entries, t.entries);
  }

  lemma FlushableKids(base: Str, es: seq<Entry>)
    requires Flushable(base, es)
    ensures forall k :: 0 <= k < |Children(es)| ==> ValidTree(Children(es)[k])
  {
  }

  lemma GraftedName(s: Blobs, s': Blobs, kids: seq<Manifest>, m: Manifest, t: Manifest)
    ensures var g := Grafted(s, s', kids, m, t); g.name == t.name && g.mutable == t.mutable
  {
  }

  /** A write that has failed after disturbing nothing: the old root still stands for what it stood
      for; the merged root, if it is stored, answers as before every key but the empty one that an
      entry on disk takes, and every key that no batch entry takes. */
  lemma WriteFailed(s0: Blobs, s: Blobs, disk: Manifest, d: Manifest, mem: Manifest, t: Manifest, inMemory: bool, key: Str)
    requires Writing(s0, disk, d, mem, t, inMemory)
    requires SameBut(d.name, Children(mem.entries), s0, s) && Undisturbed(s0, disk, d, Children(mem.entries))
    ensures Rep(false, s, disk, d)
    ensures (key != [] && Taker(d.entries, key).Some?) || Taker(t.entries, key).None? ==>
      Answer(s, MergedRoot(disk, mem), key) == RefsOf(Scan(d.entries, key))
  {
    hide RepEntries, ValidEntries, MixedEntries, Merged, SameBut, StripAll, Answer, Taker, Undisturbed;
    WritingIsFlushable(s0, disk, d, mem, t, inMemory);
    DiskUntouched(s0, s, disk, d, Children(mem.entries));
    StripOfMerged(disk.entries, mem.entries);
    StripTwice(mem.entries);
    if (key != [] && Taker(d.entries, key).Some?) || Taker(t.entries, key).None? {
      PartlyMerged(s, MergedRoot(disk, mem), MergedTree(d, t), disk.entries, d.entries, StripAll(mem.entries), t.entries, key);
    }
  }

  lemma StripTwice(es: seq<Entry>)
    ensures StripAll(StripAll(es)) == StripAll(es)
  {
  }

  /** What a write makes of the two maps. */
  lemma WriteIsUnion(d: Manifest, t: Manifest)
    requires MixedTree(d) && ValidTree(t) && d.name == t.name
    ensures forall key ::
      (RefsOf(Scan(MergedTree(d, t).entries, key)) == Union(RefsOf(Scan(d.entries, key)), Lookup(t.entries, key))
       <==> MergesAsUnion(d.entries, t.entries, key))
    ensures Answers(MergedTree(d, t).entries) == Answers(d.entries) + Contents(Leaves(t.entries)) <==>
      forall key :: key in Contents(Leaves(t.entries)) ==> MergesAsUnion(d.entries, t.entries, key)
  {
    hide Lookup, Contents, Leaves, Merged, MergesAsUnion, ValidEntries, MixedEntries, Answers, Scan;
    forall key
      ensures RefsOf(Scan(MergedTree(d, t).entries, key)) == Union(RefsOf(Scan(d.entries, key)), Lookup(t.entries, key))
        <==> MergesAsUnion(d.entries, t.entries, key)
    {
      MergedLookup(d.name, d.entries, t.entries, key);
    }
    MergedAnswers(d.name, d.entries, t.entries);
  }
}
