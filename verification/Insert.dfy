/** What one put does to a fully loaded tree, and why that is a map update. */
module Insert {
  import opened Bytes
  import opened Tree

  // ----- Sorted insertion into one node (pkg/collection/index_api.go:331-385) -----

  predicate Duplicate(es: seq<Entry>, e: Entry) {
    exists i :: 0 <= i < |es| && es[i].name == e.name && es[i].etype == e.etype && es[i].ref == e.ref
  }

  /** Where an entry with a non-empty name goes: before the first larger first byte. */
  function InsertPosition(es: seq<Entry>, name: Str): (p: nat)
    ensures p <= |es|
    ensures forall i :: 0 <= i < p ==> Head(es[i].name) <= Head(name)
    ensures p < |es| ==> Head(es[p].name) > Head(name)
  {
    if es == [] || Head(es[0].name) > Head(name) then 0 else 1 + InsertPosition(es[1..], name)
  }

  lemma InsertPositionIsUnique(es: seq<Entry>, name: Str, p: nat)
    requires p <= |es| && forall i :: 0 <= i < p ==> Head(es[i].name) <= Head(name)
    requires p < |es| ==> Head(es[p].name) > Head(name)
    ensures InsertPosition(es, name) == p
  {
  }

  function InsertAt(es: seq<Entry>, p: nat, e: Entry): (r: seq<Entry>)
    requires p <= |es|
    ensures |r| == |es| + 1 && r[p] == e
    ensures forall i :: 0 <= i < p ==> r[i] == es[i]
    ensures forall i :: p < i < |r| ==> r[i] == es[i - 1]
    ensures multiset(r) == multiset(es) + multiset{e}
  {
    assert es == es[..p] + es[p..];
    es[..p] + [e] + es[p..]
  }

  function AddSorted(es: seq<Entry>, e: Entry): seq<Entry> {
    if e.name == [] then [e] + es
    else if Duplicate(es, e) then es
    else InsertAt(es, InsertPosition(es, e.name), e)
  }

  /** First bytes ascend, not necessarily strictly. */
  predicate WeaklyOrdered(es: seq<Entry>) {
    forall i, j :: 0 <= i < j < |es| ==> Head(es[i].name) <= Head(es[j].name)
  }

  /** Insertion keeps the order and loses nothing. */
  lemma AddSortedKeepsOrder(es: seq<Entry>, e: Entry)
    requires WeaklyOrdered(es)
    ensures WeaklyOrdered(AddSorted(es, e))
    ensures e.name != [] && (exists x :: x in es && x.name == e.name && x.etype == e.etype && x.ref == e.ref) ==>
      AddSorted(es, e) == es
    ensures e.name == [] || (forall x :: x in es ==> x.name != e.name || x.etype != e.etype || x.ref != e.ref) ==>
      multiset(AddSorted(es, e)) == multiset(es) + multiset{e}
    ensures e.name == [] ==> AddSorted(es, e)[0] == e
  {
    hide WeaklyOrdered, InsertAt, InsertPosition, Duplicate, AddSorted;
    AddSortedCases(es, e);
    DuplicateIs(es, e);
    InsertKeepsOrder(es, if e.name == [] then 0 else InsertPosition(es, e.name), e);
  }

  lemma AddSortedCases(es: seq<Entry>, e: Entry)
    ensures e.name == [] ==> AddSorted(es, e) == InsertAt(es, 0, e)
    ensures e.name != [] ==> AddSorted(es, e) == if Duplicate(es, e) then es else InsertAt(es, InsertPosition(es, e.name), e)
  {
    hide Duplicate, InsertPosition;
  }

  lemma DuplicateIs(es: seq<Entry>, e: Entry)
    ensures Duplicate(es, e) <==> exists x :: x in es && x.name == e.name && x.etype == e.etype && x.ref == e.ref
  {
    if x :| x in es && x.name == e.name && x.etype == e.etype && x.ref == e.ref {
      var i :| 0 <= i < |es| && es[i] == x;
    }
  }

  lemma InsertKeepsOrder(es: seq<Entry>, p: nat, e: Entry)
    requires WeaklyOrdered(es) && p <= |es|
    requires forall i :: 0 <= i < p ==> Head(es[i].name) <= Head(e.name)
    requires p < |es| ==> Head(es[p].name) > Head(e.name) || p == 0 == |e.name|
    ensures WeaklyOrdered(InsertAt(es, p, e))
  {
    hide InsertAt;
    var r := InsertAt(es, p, e);
    forall i, j | 0 <= i < j < |r| ensures Head(r[i].name) <= Head(r[j].name) {
      if i == p && e.name != [] {
        assert Head(es[p].name) <= Head(es[j - 1].name);
      }
    }
  }

  predicate Fresh(es: seq<Entry>, name: Str) {
    name == [] || forall i :: 0 <= i < |es| ==> Head(es[i].name) != Head(name)
  }

  /** A new first byte (or a new empty leaf) keeps the node strictly ordered and answers
      for its own first byte only. */
  lemma AddSortedFresh(base: Str, es: seq<Entry>, e: Entry, key: Str)
    requires ValidEntries(base, es) && ValidEntry(base, e) && Fresh(es, e.name)
    ensures ValidEntries(base, AddSorted(es, e))
    ensures Find(AddSorted(es, e), key) ==
            if Head(key) == Head(e.name) then EntryFind(e, key) else Find(es, key)
  {
    hide InsertPosition, ValidEntry, Slot, EntryFind;
    var p := if e.name == [] then 0 else InsertPosition(es, e.name);
    var r := AddSorted(es, e);
    assert r == InsertAt(es, p, e) by {
      assert e.name == [] ==> [e] + es == InsertAt(es, 0, e);
    }
    FreshPosition(base, es, e, p);
    if Head(key) == Head(e.name) {
      SlotIsUnique(r, key, p);
    } else {
      var s := Slot(es, key);
      SlotIsUnique(r, key, if s < p then s else s + 1);
    }
  }

  lemma FreshPosition(base: Str, es: seq<Entry>, e: Entry, p: nat)
    requires ValidEntries(base, es) && ValidEntry(base, e) && Fresh(es, e.name)
    requires p == if e.name == [] then 0 else InsertPosition(es, e.name)
    ensures forall i :: 0 <= i < p ==> Head(es[i].name) < Head(e.name)
    ensures forall i :: p <= i < |es| ==>
      Head(e.name) < Head(es[i].name) || (e.name == [] && es[i].name == [])
    ensures ValidEntries(base, InsertAt(es, p, e))
  {
    hide InsertPosition, ValidEntry;
    forall i | p <= i < |es|
      ensures Head(e.name) < Head(es[i].name) || (e.name == [] && es[i].name == [])
    {
      assert e.name != [] && p < i ==> Head(es[p].name) < Head(es[i].name);
    }
    InsertAtIsValid(base, es, p, e);
  }

  lemma InsertAtIsValid(base: Str, es: seq<Entry>, p: nat, e: Entry)
    requires ValidEntries(base, es) && ValidEntry(base, e) && p <= |es|
    requires forall i :: 0 <= i < p ==> Head(es[i].name) < Head(e.name)
    requires forall i :: p <= i < |es| ==> Head(e.name) < Head(es[i].name) || (e.name == [] && es[i].name == [])
    ensures ValidEntries(base, InsertAt(es, p, e))
  {
    hide ValidEntry, Head;
    var r := InsertAt(es, p, e);
    forall i | 0 <= i < |r| ensures ValidEntry(base, r[i]) {
      assert r[i] == if i < p then es[i] else if i == p then e else es[i - 1];
    }
  }

  // ----- One put (pkg/collection/index_api.go:134-329, memory mode) -----

  function Pair(base: Str, a: Entry, b: Entry): Manifest {
    Manifest(base, false, AddSorted(AddSorted([], a), b))
  }

  /** What is left of an entry below a split. */
  function Rest(e: Entry, suffix: Str): Entry {
    if e.etype.LeafEntry? then LeafOf(suffix, e.ref) else Entry(suffix, IntermediateEntry, [], e.manifest)
  }

  /** A leaf or a branch split after `n` common bytes. */
  function Split(base: Str, e: Entry, n: nat, key: Str, value: Str): Entry
    requires n <= |e.name| && n <= |key|
  {
    var prefix := key[..n];
    BranchTo(prefix, e.ref, Pair(base + prefix, LeafOf(key[n..], [value]), Rest(e, e.name[n..])))
  }

  /** The entry that shares the key's first byte, after the put. */
  function Touch(base: Str, e: Entry, key: Str, value: Str, apnd: bool): Entry
    decreases e
  {
    if e.etype.LeafEntry? && e.name == key then
      e.(ref := (if apnd then e.ref else []) + [value])
    else
      var n := CommonLength(e.name, key);
      if e.etype.IntermediateEntry? && n == |e.name| && e.manifest.Some? then
        var child := e.manifest.value;
        e.(manifest := Some(child.(entries := Put(base + e.name, child.entries, key[n..], value, apnd))))
      else
        Split(base, e, n, key, value)
  }

  /** The entries of a node after putting `value` under `key`. */
  function Put(base: Str, es: seq<Entry>, key: Str, value: Str, apnd: bool): seq<Entry>
    decreases es
  {
    var i := Slot(es, key);
    if key == [] || i == |es| then AddSorted(es, LeafOf(key, [value]))
    else es[i := Touch(base, es[i], key, value, apnd)]
  }

  function PutTree(t: Manifest, key: Str, value: Str, apnd: bool): Manifest {
    t.(entries := Put(t.name, t.entries, key, value, apnd))
  }

  /** The values an appending put keeps: those of a leaf whose own name is not empty. */
  function Kept(es: seq<Entry>, key: Str, apnd: bool): Refs {
    var found := Find(es, key);
    if apnd && found.Some? && found.value.name != [] then found.value.ref else []
  }

  function EntryKept(e: Entry, key: Str, apnd: bool): Refs {
    var found := EntryFind(e, key);
    if apnd && found.Some? && found.value.name != [] then found.value.ref else []
  }

  lemma PairInOrder(base: Str, a: Entry, b: Entry)
    requires Head(a.name) != Head(b.name)
    ensures Pair(base, a, b) == Manifest(base, false, if Head(a.name) < Head(b.name) then [a, b] else [b, a])
  {
    hide InsertPosition, Duplicate;
    InsertPositionIsUnique([], a.name, 0);
    NoDuplicate([], a);
    NoDuplicate([a], b);
    assert InsertAt([], 0, a) == [a];
    assert AddSorted([], a) == [a];
    if b.name != [] {
      var p := if Head(a.name) < Head(b.name) then 1 else 0;
      InsertPositionIsUnique([a], b.name, p);
      assert InsertAt([a], p, b) == if p == 1 then [a, b] else [b, a];
    }
  }

  lemma NoDuplicate(es: seq<Entry>, e: Entry)
    requires forall i :: 0 <= i < |es| ==> Head(es[i].name) != Head(e.name)
    ensures !Duplicate(es, e)
  {
  }

  lemma PairIsValid(base: Str, a: Entry, b: Entry, key: Str)
    requires ValidEntry(base, a) && ValidEntry(base, b) && Head(a.name) != Head(b.name)
    ensures ValidTree(Pair(base, a, b))
    ensures Find(Pair(base, a, b).entries, key) ==
            if Head(key) == Head(b.name) then EntryFind(b, key)
            else if Head(key) == Head(a.name) then EntryFind(a, key)
            else None
  {
    AddSortedFresh(base, [], a, key);
    AddSortedFresh(base, AddSorted([], a), b, key);
  }

  /** A put leaves a valid tree and is a map update: the key gets the kept values
      followed by the new one, and no other key's answer changes. */
  lemma {:induction false} PutIsUpdate(base: Str, es: seq<Entry>, key: Str, value: Str, apnd: bool, k: Str)
    requires ValidEntries(base, es)
    ensures ValidEntries(base, Put(base, es, key, value, apnd))
    ensures Lookup(Put(base, es, key, value, apnd), k) ==
            if k == key then Some(Kept(es, key, apnd) + [value]) else Lookup(es, k)
    decreases es
  {
    hide Slot, Touch, InsertPosition;
    var i := Slot(es, key);
    if key == [] || i == |es| {
      AddSortedFresh(base, es, LeafOf(key, [value]), k);
      if key == [] {
        assert Find(es, key).Some? ==> Find(es, key).value.name == [] by {
          if i < |es| { assert ValidEntry(base, es[i]); }
        }
      }
      assert Kept(es, key, apnd) + [value] == [value];
    } else {
      var e' := Touch(base, es[i], key, value, apnd);
      var es' := es[i := e'];
      assert ValidEntry(base, es[i]);
      TouchIsUpdate(base, es[i], key, value, apnd, k);
      SlotIsUnique(es', k, Slot(es, k));
      assert ValidEntries(base, es');
      if Slot(es, k) == i {
        assert Find(es', k) == EntryFind(e', k) && Find(es, k) == EntryFind(es[i], k);
      } else {
        assert k != key;
        assert Find(es', k) == Find(es, k);
      }
    }
  }

  lemma {:induction false} TouchIsUpdate(base: Str, e: Entry, key: Str, value: Str, apnd: bool, k: Str)
    requires ValidEntry(base, e) && key != [] && Head(e.name) == Head(key)
    ensures ValidEntry(base, Touch(base, e, key, value, apnd))
    ensures Head(Touch(base, e, key, value, apnd).name) == Head(e.name)
    ensures Head(k) == Head(key) ==>
      RefsOf(EntryFind(Touch(base, e, key, value, apnd), k)) ==
      if k == key then Some(EntryKept(e, key, apnd) + [value]) else RefsOf(EntryFind(e, k))
    decreases e, 1
  {
    var n := CommonLength(e.name, key);
    assert e.name[..n] == key[..n];
    if e.etype.LeafEntry? && e.name == key {
    } else if e.etype.IntermediateEntry? && n == |e.name| {
      DescendIsUpdate(base, e, key, value, apnd, k);
    } else {
      SplitIsUpdate(base, e, n, key, value, k);
      assert EntryKept(e, key, apnd) + [value] == [value];
    }
  }

  lemma {:induction false} DescendIsUpdate(base: Str, e: Entry, key: Str, value: Str, apnd: bool, k: Str)
    requires ValidEntry(base, e) && e.etype.IntermediateEntry? && e.name <= key
    ensures Touch(base, e, key, value, apnd).name == e.name
    ensures ValidEntry(base, Touch(base, e, key, value, apnd))
    ensures RefsOf(EntryFind(Touch(base, e, key, value, apnd), k)) ==
            if k == key then Some(EntryKept(e, key, apnd) + [value]) else RefsOf(EntryFind(e, k))
    decreases e, 0
  {
    hide Find, ValidEntries, Put;
    var child, n := e.manifest.value, |e.name|;
    CommonLengthIsUnique(e.name, key, n);
    var e' := Touch(base, e, key, value, apnd);
    assert e'.manifest.value.entries == Put(base + e.name, child.entries, key[n..], value, apnd);
    var k' := if e.name <= k then k[n..] else [];
    PutIsUpdate(base + e.name, child.entries, key[n..], value, apnd, k');
    assert key == e.name + key[n..];
    assert e.name <= k ==> k == e.name + k';
  }

  /** Both kinds of split: the entry becomes a branch to a node with the new leaf and
      the old entry under its remaining suffix. */
  lemma SplitIsUpdate(base: Str, e: Entry, n: nat, key: Str, value: Str, k: Str)
    requires ValidEntry(base, e) && 0 < n <= |key| && n <= |e.name| && e.name[..n] == key[..n]
    requires Head(e.name[n..]) != Head(key[n..])
    requires e.etype.IntermediateEntry? ==> n < |e.name|
    ensures ValidEntry(base, Split(base, e, n, key, value))
    ensures EntryFind(e, key).None?
    ensures RefsOf(EntryFind(Split(base, e, n, key, value), k)) ==
            if k == key then Some([value]) else RefsOf(EntryFind(e, k))
  {
    hide Pair, Slot;
    var prefix, leaf, other := key[..n], LeafOf(key[n..], [value]), Rest(e, e.name[n..]);
    assert e.name == prefix + other.name && key == prefix + leaf.name;
    assert base + e.name == base + prefix + other.name;
    assert ValidEntry(base + prefix, other);
    var k' := if prefix <= k then k[n..] else [];
    SplitFind(prefix, e, other, key);
    SplitFind(prefix, e, other, k);
    assert prefix <= k ==> k == prefix + k';
    SplitPairFind(base + prefix, leaf, other, k');
  }

  lemma SplitPairFind(base: Str, leaf: Entry, other: Entry, k: Str)
    requires ValidEntry(base, leaf) && ValidEntry(base, other) && Head(leaf.name) != Head(other.name)
    requires leaf.etype.LeafEntry?
    ensures ValidTree(Pair(base, leaf, other)) && Pair(base, leaf, other).name == base
    ensures Find(Pair(base, leaf, other).entries, k) ==
            if k == leaf.name then Some(leaf) else EntryFind(other, k)
  {
    PairIsValid(base, leaf, other, k);
  }

  /** Below a split, the old entry answers through its suffix. */
  lemma SplitFind(prefix: Str, e: Entry, other: Entry, k: Str)
    requires e.name == prefix + other.name && e.etype == other.etype
    requires e.etype.LeafEntry? ==> e.ref == other.ref
    requires e.etype.IntermediateEntry? ==> e.manifest == other.manifest && other.name != []
    ensures !(prefix <= k) ==> EntryFind(e, k).None?
    ensures prefix <= k ==> RefsOf(EntryFind(other, k[|prefix|..])) == RefsOf(EntryFind(e, k))
    ensures prefix <= k && Head(k[|prefix|..]) != Head(other.name) ==> EntryFind(e, k).None?
  {
    assert prefix <= e.name;
    if prefix <= k {
      var k' := k[|prefix|..];
      assert k == prefix + k';
      assert e.name == k <==> other.name == k' by {
        assert e.name[|prefix|..] == other.name;
      }
      assert e.name <= k <==> other.name <= k' by {
        if e.name <= k {
          assert k[..|e.name|][|prefix|..] == other.name == k'[..|other.name|];
        }
        if other.name <= k' {
          assert k[..|e.name|] == prefix + k'[..|other.name|];
        }
      }
      if e.name <= k {
        assert k[|e.name|..] == k'[|other.name|..];
      }
    }
  }
}
