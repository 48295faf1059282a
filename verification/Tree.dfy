/** The nodes of the radix index, what a node means, and when a node is in good shape. */
module Tree {
  import opened Bytes

  datatype Option<+T> = None | Some(value: T)

  type Refs = seq<Str>

  datatype EntryType = LeafEntry | IntermediateEntry

  /** One edge of a node. `manifest` is the child when it is held in memory (or was
      embedded in the stored form); a child held on disk is found by name instead. */
  datatype Entry = Entry(name: Str, etype: EntryType, ref: Refs, manifest: Option<Manifest>)

  /** One node, named by the concatenation of the entry names on its path. */
  datatype Manifest = Manifest(name: Str, mutable: bool, entries: seq<Entry>)

  function LeafOf(name: Str, ref: Refs): Entry {
    Entry(name, LeafEntry, ref, None)
  }

  function BranchTo(name: Str, ref: Refs, child: Manifest): Entry {
    Entry(name, IntermediateEntry, ref, Some(child))
  }

  // ----- Validity -----

  /** Entries ascend by first byte, strictly so unless both names are empty. */
  predicate Ordered(es: seq<Entry>) {
    forall i, j :: 0 <= i < j < |es| ==>
      Head(es[i].name) < Head(es[j].name) || (es[i].name == [] && es[j].name == [])
  }

  /** A fully loaded tree: every branch holds its child, which is named after its path. */
  predicate ValidEntries(base: Str, es: seq<Entry>)
    decreases es
  {
    Ordered(es) && forall i :: 0 <= i < |es| ==> ValidEntry(base, es[i])
  }

  predicate ValidEntry(base: Str, e: Entry)
    decreases e
  {
    if e.etype.LeafEntry? then e.manifest.None?
    else
      && e.name != []
      && e.manifest.Some?
      && e.manifest.value.name == base + e.name
      && ValidEntries(base + e.name, e.manifest.value.entries)
  }

  predicate ValidTree(t: Manifest) {
    ValidEntries(t.name, t.entries)
  }

  /** No node holds the empty name twice, so that no leaf is shadowed by a newer one. */
  predicate OneEmpty(es: seq<Entry>)
    decreases es
  {
    && (forall i, j :: 0 <= i < j < |es| ==> !(es[i].name == [] && es[j].name == []))
    && forall i :: 0 <= i < |es| && es[i].manifest.Some? ==> OneEmpty(es[i].manifest.value.entries)
  }

  // ----- Lookup without the early exit -----

  /** The first entry that shares the key's first byte (or is empty like the key). */
  function Slot(es: seq<Entry>, key: Str): (i: nat)
    ensures i <= |es|
    ensures forall j :: 0 <= j < i ==> Head(es[j].name) != Head(key)
    ensures i < |es| ==> Head(es[i].name) == Head(key)
  {
    if es == [] then 0
    else if Head(es[0].name) == Head(key) then 0
    else 1 + Slot(es[1..], key)
  }

  lemma SlotIsUnique(es: seq<Entry>, key: Str, i: nat)
    requires i <= |es|
    requires forall j :: 0 <= j < i ==> Head(es[j].name) != Head(key)
    requires i < |es| ==> Head(es[i].name) == Head(key)
    ensures Slot(es, key) == i
  {
  }

  function EntryFind(e: Entry, key: Str): Option<Entry>
    decreases e
  {
    if e.etype.LeafEntry? then
      if e.name == key then Some(e) else None
    else if e.manifest.Some? && e.name <= key then
      Find(e.manifest.value.entries, key[|e.name|..])
    else None
  }

  /** The leaf that answers for `key`. */
  function Find(es: seq<Entry>, key: Str): Option<Entry>
    decreases es
  {
    var i := Slot(es, key);
    if i == |es| then None else EntryFind(es[i], key)
  }

  function RefsOf(o: Option<Entry>): Option<Refs> {
    if o.Some? then Some(o.value.ref) else None
  }

  /** What `Get` answers for `key`. */
  function Lookup(es: seq<Entry>, key: Str): Option<Refs> {
    RefsOf(Find(es, key))
  }

  // ----- Lookup as the code scans a node -----

  /** The scan does not step past this entry: it is the key's leaf, or a branch on its way. */
  predicate Takes(e: Entry, key: Str) {
    if e.etype.LeafEntry? then e.name == key else e.name <= key
  }

  /** Where the scan of a node ends: at the first entry that takes the key or has a larger first
      byte. */
  function ScanSlot(es: seq<Entry>, key: Str): (i: nat)
    ensures i <= |es|
    ensures forall j :: 0 <= j < i ==> !Takes(es[j], key) && Head(es[j].name) <= Head(key)
    ensures i < |es| ==> Takes(es[i], key) || Head(es[i].name) > Head(key)
  {
    if es == [] then 0
    else if Takes(es[0], key) || Head(es[0].name) > Head(key) then 0
    else 1 + ScanSlot(es[1..], key)
  }

  lemma ScanSlotIsUnique(es: seq<Entry>, key: Str, i: nat)
    requires i <= |es|
    requires forall j :: 0 <= j < i ==> !Takes(es[j], key) && Head(es[j].name) <= Head(key)
    requires i < |es| ==> Takes(es[i], key) || Head(es[i].name) > Head(key)
    ensures ScanSlot(es, key) == i
  {
  }

  /** The entry at which the scan of a node ends because it takes the key. */
  function Taker(es: seq<Entry>, key: Str): (o: Option<Entry>)
    ensures o.Some? ==> Takes(o.value, key) && o.value in es
  {
    var i := ScanSlot(es, key);
    if i < |es| && Takes(es[i], key) then Some(es[i]) else None
  }

  /** The leaf that a scan finds, in a node of any shape. */
  function Scan(es: seq<Entry>, key: Str): Option<Entry>
    decreases es
  {
    var i := ScanSlot(es, key);
    if i == |es| || !Takes(es[i], key) then None else EntryScan(es[i], key)
  }

  function EntryScan(e: Entry, key: Str): Option<Entry>
    requires Takes(e, key)
    decreases e
  {
    if e.etype.LeafEntry? then Some(e)
    else if e.manifest.Some? then Scan(e.manifest.value.entries, key[|e.name|..])
    else None
  }

  /** A root as a merge may leave it: first bytes ascend, not necessarily strictly, over entries
      that are valid one by one. */
  predicate MixedEntries(base: Str, es: seq<Entry>) {
    && (forall i, j :: 0 <= i < j < |es| ==> Head(es[i].name) <= Head(es[j].name))
    && forall i :: 0 <= i < |es| ==> ValidEntry(base, es[i])
  }

  predicate MixedTree(t: Manifest) {
    MixedEntries(t.name, t.entries)
  }

  lemma ValidIsMixed(base: Str, es: seq<Entry>)
    requires ValidEntries(base, es)
    ensures MixedEntries(base, es)
  {
  }

  lemma ScanIsTaker(es: seq<Entry>, key: Str)
    ensures Scan(es, key) == if Taker(es, key).Some? then EntryScan(Taker(es, key).value, key) else None
  {
  }

  /** The first entry that takes the key is where the scan ends; without one it finds nothing. */
  lemma FirstTaker(base: Str, es: seq<Entry>, key: Str, i: nat)
    requires MixedEntries(base, es) && i <= |es|
    requires forall j :: 0 <= j < i ==> !Takes(es[j], key)
    requires i < |es| ==> Takes(es[i], key)
    ensures Taker(es, key) == if i < |es| then Some(es[i]) else None
  {
    hide ValidEntry;
    if i < |es| {
      assert ValidEntry(base, es[i]);
      TakersHead(base, es[i], key);
      ScanSlotIsUnique(es, key, i);
    }
  }

  lemma TakersHead(base: Str, e: Entry, key: Str)
    requires ValidEntry(base, e) && Takes(e, key)
    ensures Head(e.name) == Head(key)
  {
  }

  /** In a valid node at most one entry can take the key, and it is the one with its first byte. */
  lemma ScanSlotIsSlot(base: Str, es: seq<Entry>, key: Str)
    requires ValidEntries(base, es)
    ensures var i, k := ScanSlot(es, key), Slot(es, key);
      && (i < |es| && Takes(es[i], key) ==> k == i)
      && (k < |es| && Takes(es[k], key) ==> k == i)
  {
    hide ValidEntry;
    var i, k := ScanSlot(es, key), Slot(es, key);
    if i < |es| && Takes(es[i], key) {
      TakersHead(base, es[i], key);
      if key == [] && k < |es| {
        EmptyIsTaken(base, es[k]);
      }
    }
  }

  lemma EmptyIsTaken(base: Str, e: Entry)
    requires ValidEntry(base, e) && e.name == []
    ensures e.etype.LeafEntry? && Takes(e, [])
  {
  }

  /** On a valid tree the early exit and the stepping past entries lose nothing. */
  lemma {:induction false} ScanIsFind(base: Str, es: seq<Entry>, key: Str)
    requires ValidEntries(base, es)
    ensures Scan(es, key) == Find(es, key)
    decreases es
  {
    hide Slot, ScanSlot;
    var i, k := ScanSlot(es, key), Slot(es, key);
    ScanSlotIsSlot(base, es, key);
    if i < |es| && Takes(es[i], key) {
      EntryScanIsFind(base, es, i, key);
      assert Scan(es, key) == EntryScan(es[i], key);
    } else {
      assert Scan(es, key) == None;
      assert k < |es| ==> EntryFind(es[k], key) == None;
    }
  }

  lemma {:induction false} EntryScanIsFind(base: Str, es: seq<Entry>, i: nat, key: Str)
    requires ValidEntries(base, es) && i < |es| && Takes(es[i], key)
    ensures EntryScan(es[i], key) == EntryFind(es[i], key)
    decreases es, 0
  {
    var e := es[i];
    assert ValidEntry(base, e);
    if e.etype.IntermediateEntry? {
      ScanIsFind(base + e.name, e.manifest.value.entries, key[|e.name|..]);
    }
  }

  // ----- The listing of a tree -----

  datatype Item = Item(key: Str, refs: Refs)

  function Under(p: Str, xs: seq<Item>): (ys: seq<Item>)
    ensures |ys| == |xs|
    ensures forall i :: 0 <= i < |xs| ==> ys[i] == Item(p + xs[i].key, xs[i].refs)
  {
    seq(|xs|, i requires 0 <= i < |xs| => Item(p + xs[i].key, xs[i].refs))
  }

  function EntryLeaves(e: Entry): seq<Item>
    decreases e
  {
    if e.etype.LeafEntry? then [Item(e.name, e.ref)]
    else if e.manifest.Some? then Under(e.name, Leaves(e.manifest.value.entries))
    else []
  }

  /** Every leaf with its full path, in the order in which the nodes hold them. */
  function Leaves(es: seq<Entry>): seq<Item>
    decreases es
  {
    if es == [] then [] else EntryLeaves(es[0]) + Leaves(es[1..])
  }

  /** The first pair for `key` in a list of pairs. */
  function Assoc(xs: seq<Item>, key: Str): Option<Refs> {
    if xs == [] then None
    else if xs[0].key == key then Some(xs[0].refs)
    else Assoc(xs[1..], key)
  }

  /** The map a tree stands for: the first pair of each key counts. */
  function Contents(xs: seq<Item>): map<Str, Refs> {
    if xs == [] then map[] else Contents(xs[1..])[xs[0].key := xs[0].refs]
  }

  lemma {:induction false} ContentsIsAssoc(xs: seq<Item>, key: Str)
    ensures key in Contents(xs) <==> Assoc(xs, key).Some?
    ensures key in Contents(xs) ==> Assoc(xs, key) == Some(Contents(xs)[key])
    ensures key in Contents(xs) <==> exists i :: 0 <= i < |xs| && xs[i].key == key
  {
    if xs != [] {
      ContentsIsAssoc(xs[1..], key);
      if key in Contents(xs[1..]) && xs[0].key != key {
        var i :| 0 <= i < |xs[1..]| && xs[1..][i].key == key;
        assert xs[i + 1].key == key;
      }
    }
  }

  lemma {:induction false} AssocOfAppend(xs: seq<Item>, ys: seq<Item>, key: Str)
    ensures Assoc(xs + ys, key) == if Assoc(xs, key).Some? then Assoc(xs, key) else Assoc(ys, key)
  {
    if xs == [] {
      assert xs + ys == ys;
    } else {
      assert (xs + ys)[1..] == xs[1..] + ys;
      AssocOfAppend(xs[1..], ys, key);
    }
  }

  lemma {:induction false} AssocUnderPrefix(p: Str, xs: seq<Item>, key: Str)
    ensures Assoc(Under(p, xs), key) == if p <= key then Assoc(xs, key[|p|..]) else None
  {
    if xs != [] {
      assert Under(p, xs)[1..] == Under(p, xs[1..]);
      AssocUnderPrefix(p, xs[1..], key);
      if p <= key {
        assert key == p + key[|p|..];
        assert p + xs[0].key == key ==> xs[0].key == (p + xs[0].key)[|p|..] == key[|p|..];
      } else {
        assert p <= p + xs[0].key;
      }
    }
  }

  /** Every path under an entry starts with the entry's name. */
  lemma EntryLeavesStart(base: Str, e: Entry)
    requires ValidEntry(base, e)
    ensures forall i :: 0 <= i < |EntryLeaves(e)| ==> e.name <= EntryLeaves(e)[i].key
    ensures forall i :: 0 <= i < |EntryLeaves(e)| ==> Head(EntryLeaves(e)[i].key) == Head(e.name)
  {
  }

  lemma {:induction false} LeavesHeads(base: Str, es: seq<Entry>, i: nat)
    requires ValidEntries(base, es) && i < |Leaves(es)|
    ensures exists j :: 0 <= j < |es| && Head(Leaves(es)[i].key) == Head(es[j].name)
  {
    EntryLeavesStart(base, es[0]);
    var n := |EntryLeaves(es[0])|;
    if i < n {
      assert Head(Leaves(es)[i].key) == Head(es[0].name);
    } else {
      LeavesHeads(base, es[1..], i - n);
      var j :| 0 <= j < |es[1..]| && Head(Leaves(es[1..])[i - n].key) == Head(es[1..][j].name);
      assert Head(Leaves(es)[i].key) == Head(es[j + 1].name);
    }
  }

  lemma {:induction false} AssocNone(xs: seq<Item>, key: Str)
    requires forall i :: 0 <= i < |xs| ==> xs[i].key != key
    ensures Assoc(xs, key) == None
  {
    if xs != [] {
      AssocNone(xs[1..], key);
    }
  }

  /** Lookup finds a key exactly when some leaf's full path equals it, and then
      answers with the first such leaf. */
  lemma {:induction false} LookupIsAssoc(base: Str, es: seq<Entry>, key: Str)
    requires ValidEntries(base, es)
    ensures Lookup(es, key) == Assoc(Leaves(es), key)
    decreases es
  {
    hide Slot, Find, EntryFind, EntryLeaves, ValidEntry;
    if es != [] {
      var e, rest := es[0], es[1..];
      AssocOfAppend(EntryLeaves(e), Leaves(rest), key);
      FindSteps(es, key);
      if Head(e.name) == Head(key) {
        EntryFindIsAssoc(base, e, key);
        AssocPastHead(base, es, key);
      } else {
        AssocElsewhere(base, e, key);
        LookupIsAssoc(base, rest, key);
      }
    } else {
      NothingFound(key);
    }
  }

  /** Lookup goes through the entries one by one. */
  lemma FindSteps(es: seq<Entry>, key: Str)
    requires es != []
    ensures Find(es, key) == if Head(es[0].name) == Head(key) then EntryFind(es[0], key) else Find(es[1..], key)
  {
    hide Slot, EntryFind;
    if Head(es[0].name) == Head(key) {
      SlotIsUnique(es, key, 0);
    } else {
      SlotIsUnique(es, key, 1 + Slot(es[1..], key));
    }
  }

  lemma NothingFound(key: Str)
    ensures Find([], key) == None
  {
  }

  /** The rest of a node has nothing for a key with the first byte of its first entry. */
  lemma AssocPastHead(base: Str, es: seq<Entry>, key: Str)
    requires ValidEntries(base, es) && es != [] && Head(es[0].name) == Head(key)
    ensures Assoc(EntryLeaves(es[0]), key).None? ==> Assoc(Leaves(es[1..]), key).None?
  {
    var rest := es[1..];
    assert ValidEntry(base, es[0]);
    if key != [] {
      forall i | 0 <= i < |Leaves(rest)| ensures Leaves(rest)[i].key != key {
        LeavesHeads(base, rest, i);
      }
      AssocNone(Leaves(rest), key);
    }
  }

  lemma AssocElsewhere(base: Str, e: Entry, key: Str)
    requires ValidEntry(base, e) && Head(e.name) != Head(key)
    ensures Assoc(EntryLeaves(e), key).None?
  {
    hide EntryLeaves, ValidEntry;
    EntryLeavesStart(base, e);
    AssocNone(EntryLeaves(e), key);
  }

  lemma {:induction false} EntryFindIsAssoc(base: Str, e: Entry, key: Str)
    requires ValidEntry(base, e)
    ensures RefsOf(EntryFind(e, key)) == Assoc(EntryLeaves(e), key)
    decreases e
  {
    if e.etype.IntermediateEntry? {
      AssocUnderPrefix(e.name, Leaves(e.manifest.value.entries), key);
      if e.name <= key {
        LookupIsAssoc(base + e.name, e.manifest.value.entries, key[|e.name|..]);
      }
    }
  }

  lemma LookupIsContents(base: Str, es: seq<Entry>, key: Str)
    requires ValidEntries(base, es)
    ensures key in Contents(Leaves(es)) <==> Lookup(es, key).Some?
    ensures key in Contents(Leaves(es)) ==> Lookup(es, key) == Some(Contents(Leaves(es))[key])
  {
    LookupIsAssoc(base, es, key);
    ContentsIsAssoc(Leaves(es), key);
  }

  // ----- The listing is sorted -----

  predicate Ascending(xs: seq<Item>) {
    forall i, j :: 0 <= i < j < |xs| ==> AtMost(xs[i].key, xs[j].key)
  }

  predicate StrictlyAscending(xs: seq<Item>) {
    forall i, j :: 0 <= i < j < |xs| ==> Less(xs[i].key, xs[j].key)
  }

  lemma AscendingJoin(xs: seq<Item>, ys: seq<Item>)
    requires Ascending(xs) && Ascending(ys)
    requires forall i, j :: 0 <= i < |xs| && 0 <= j < |ys| ==> AtMost(xs[i].key, ys[j].key)
    ensures Ascending(xs + ys)
  {
    hide AtMost;
  }

  lemma StrictlyAscendingJoin(xs: seq<Item>, ys: seq<Item>)
    requires StrictlyAscending(xs) && StrictlyAscending(ys)
    requires forall i, j :: 0 <= i < |xs| && 0 <= j < |ys| ==> Less(xs[i].key, ys[j].key)
    ensures StrictlyAscending(xs + ys)
  {
    hide Less;
  }

  /** A node lists its leaves in byte order; a key comes twice only when a node
      holds two empty names. */
  lemma {:induction false} LeavesAscend(base: Str, es: seq<Entry>)
    requires ValidEntries(base, es)
    ensures Ascending(Leaves(es))
    ensures OneEmpty(es) ==> StrictlyAscending(Leaves(es))
    decreases es
  {
    hide EntryLeaves, ValidEntry, Less, AtMost, Ascending, StrictlyAscending;
    if es != [] {
      var e, rest := es[0], es[1..];
      EntryLeavesAscend(base, e);
      LeavesAscend(base, rest);
      var xs, ys := EntryLeaves(e), Leaves(rest);
      assert OneEmpty(es) ==> OneEmpty(rest);
      forall i, j | 0 <= i < |xs| && 0 <= j < |ys|
        ensures AtMost(xs[i].key, ys[j].key)
        ensures OneEmpty(es) ==> Less(xs[i].key, ys[j].key)
      {
        FirstIsLeast(base, es, i, j);
      }
      AscendingJoin(xs, ys);
      if OneEmpty(es) {
        OneEmptyEntry(base, es);
        StrictlyAscendingJoin(xs, ys);
      }
    } else {
      assert Leaves(es) == [];
      NothingAscends();
    }
  }

  lemma NothingAscends()
    ensures Ascending([]) && StrictlyAscending([])
  {
  }

  lemma OneEmptyEntry(base: Str, es: seq<Entry>)
    requires ValidEntries(base, es) && es != [] && OneEmpty(es)
    ensures es[0].etype.LeafEntry? || (es[0].manifest.Some? && OneEmpty(es[0].manifest.value.entries))
  {
    assert ValidEntry(base, es[0]);
  }

  lemma FirstIsLeast(base: Str, es: seq<Entry>, i: nat, j: nat)
    requires ValidEntries(base, es) && es != []
    requires i < |EntryLeaves(es[0])| && j < |Leaves(es[1..])|
    ensures AtMost(EntryLeaves(es[0])[i].key, Leaves(es[1..])[j].key)
    ensures OneEmpty(es) ==> Less(EntryLeaves(es[0])[i].key, Leaves(es[1..])[j].key)
  {
    hide EntryLeaves, ValidEntry, Leaves;
    var e, rest := es[0], es[1..];
    EntryLeavesStart(base, e);
    LeavesHeads(base, rest, j);
    var k :| 0 <= k < |rest| && Head(Leaves(rest)[j].key) == Head(rest[k].name);
    assert rest[k] == es[k + 1];
    if Head(e.name) == Head(rest[k].name) {
      assert EntryLeaves(e)[i].key == [] && Leaves(rest)[j].key == [];
    }
  }

  lemma {:induction false} EntryLeavesAscend(base: Str, e: Entry)
    requires ValidEntry(base, e)
    ensures Ascending(EntryLeaves(e))
    ensures e.manifest.Some? && OneEmpty(e.manifest.value.entries) ==> StrictlyAscending(EntryLeaves(e))
    ensures e.etype.LeafEntry? ==> StrictlyAscending(EntryLeaves(e))
    decreases e
  {
    if e.etype.IntermediateEntry? {
      var xs := Leaves(e.manifest.value.entries);
      LeavesAscend(base + e.name, e.manifest.value.entries);
      forall i, j | 0 <= i < j < |xs|
        ensures AtMost(e.name + xs[i].key, e.name + xs[j].key)
        ensures Less(xs[i].key, xs[j].key) ==> Less(e.name + xs[i].key, e.name + xs[j].key)
      {
        LessUnderPrefix(e.name, xs[i].key, xs[j].key);
      }
    }
  }

  lemma {:induction false} CountIsKeys(xs: seq<Item>)
    requires StrictlyAscending(xs)
    ensures |xs| == |Contents(xs)|
  {
    if xs != [] {
      CountIsKeys(xs[1..]);
      if xs[0].key in Contents(xs[1..]) {
        ContentsIsAssoc(xs[1..], xs[0].key);
        var i :| 0 <= i < |xs[1..]| && xs[1..][i].key == xs[0].key;
        LessIsTotal(xs[0].key, xs[i + 1].key);
      }
    }
  }

  // ----- The map that scans answer from -----

  /** What lookups answer in a root of any shape; on a valid tree, the map of its listing. */
  function Answers(es: seq<Entry>): map<Str, Refs> {
    map k | k in Contents(Leaves(es)) && Scan(es, k).Some? :: Scan(es, k).value.ref
  }

  lemma {:induction false} MemberLeaves(es: seq<Entry>, i: nat, x: Item)
    requires i < |es| && x in EntryLeaves(es[i])
    ensures x in Leaves(es)
  {
    if i > 0 {
      MemberLeaves(es[1..], i - 1, x);
    }
  }

  lemma AssocIsMember(xs: seq<Item>, key: Str)
    ensures Assoc(xs, key).Some? ==> Item(key, Assoc(xs, key).value) in xs
    ensures (exists x :: x in xs && x.key == key) ==> key in Contents(xs)
  {
    ContentsIsAssoc(xs, key);
  }

  lemma AnswersAreScans(base: Str, es: seq<Entry>, key: Str)
    requires MixedEntries(base, es)
    ensures key in Answers(es) <==> Scan(es, key).Some?
    ensures key in Answers(es) ==> Scan(es, key).value.ref == Answers(es)[key]
  {
    hide Contents, Leaves, ScanSlot;
    if Scan(es, key).Some? {
      var i := ScanSlot(es, key);
      var e := es[i];
      assert ValidEntry(base, e) && Scan(es, key) == EntryScan(e, key);
      ScannedIsLeaf(base, e, key);
      var refs :| Item(key, refs) in EntryLeaves(e);
      MemberLeaves(es, i, Item(key, refs));
      AssocIsMember(Leaves(es), key);
    }
  }

  lemma ScannedIsLeaf(base: Str, e: Entry, key: Str)
    requires ValidEntry(base, e) && Takes(e, key) && EntryScan(e, key).Some?
    ensures exists refs :: Item(key, refs) in EntryLeaves(e)
  {
    hide ValidEntries, Scan;
    if e.etype.LeafEntry? {
      assert Item(key, e.ref) in EntryLeaves(e);
    } else {
      var below, k := e.manifest.value.entries, key[|e.name|..];
      ScanIsFind(base + e.name, below, k);
      LookupIsAssoc(base + e.name, below, k);
      AssocIsMember(Leaves(below), k);
      MemberUnder(e.name, Leaves(below), Item(k, Assoc(Leaves(below), k).value));
      assert key == e.name + k;
    }
  }

  lemma MemberUnder(p: Str, xs: seq<Item>, x: Item)
    requires x in xs
    ensures Item(p + x.key, x.refs) in Under(p, xs)
  {
    var i :| 0 <= i < |xs| && xs[i] == x;
    assert Under(p, xs)[i] == Item(p + x.key, x.refs);
  }

  lemma ValidAnswers(base: Str, es: seq<Entry>)
    requires ValidEntries(base, es)
    ensures Answers(es) == Contents(Leaves(es))
  {
    hide Contents, Leaves, Scan, Find, ValidEntries;
    ValidIsMixed(base, es);
    forall k
      ensures k in Answers(es) <==> k in Contents(Leaves(es))
      ensures k in Answers(es) ==> Answers(es)[k] == Contents(Leaves(es))[k]
    {
      AnswersAreScans(base, es, k);
      ScanIsFind(base, es, k);
      LookupIsContents(base, es, k);
    }
  }
}
