/** What a put does to the whole listing of a tree, shadowed leaves included. */
module Listing {
  import opened Bytes
  import opened Tree
  import opened Insert

  /** `ys` is `xs` with one pair written at `p`: over an old pair of the same key, or
      between its neighbours. */
  predicate WrittenAt(xs: seq<Item>, ys: seq<Item>, p: nat, item: Item, replaced: bool) {
    if replaced then p < |xs| && xs[p].key == item.key && ys == xs[p := item]
    else p <= |xs| && ys == xs[..p] + [item] + xs[p..]
  }

  ghost predicate Written(xs: seq<Item>, ys: seq<Item>, item: Item, replaced: bool) {
    exists p: nat :: WrittenAt(xs, ys, p, item, replaced)
  }

  lemma WrittenInside(a: seq<Item>, xs: seq<Item>, ys: seq<Item>, b: seq<Item>, item: Item, replaced: bool)
    requires Written(xs, ys, item, replaced)
    ensures Written(a + xs + b, a + ys + b, item, replaced)
  {
    var p: nat :| WrittenAt(xs, ys, p, item, replaced);
    var whole := a + xs + b;
    var q := |a| + p;
    if replaced {
      assert a + ys + b == whole[q := item];
    } else {
      assert whole[..q] == a + xs[..p] && whole[q..] == xs[p..] + b;
      assert a + ys + b == whole[..q] + [item] + whole[q..];
    }
    assert WrittenAt(whole, a + ys + b, q, item, replaced);
  }

  lemma WrittenBetween(a: seq<Item>, item: Item, b: seq<Item>)
    ensures Written(a + b, a + [item] + b, item, false)
  {
    assert (a + b)[..|a|] == a && (a + b)[|a|..] == b;
    assert WrittenAt(a + b, a + [item] + b, |a|, item, false);
  }

  lemma WrittenUnder(s: Str, xs: seq<Item>, ys: seq<Item>, item: Item, replaced: bool)
    requires Written(xs, ys, item, replaced)
    ensures Written(Under(s, xs), Under(s, ys), Item(s + item.key, item.refs), replaced)
  {
    var p: nat :| WrittenAt(xs, ys, p, item, replaced);
    var item' := Item(s + item.key, item.refs);
    if replaced {
      assert Under(s, ys) == Under(s, xs)[p := item'];
    } else {
      assert Under(s, ys) == Under(s, xs)[..p] + [item'] + Under(s, xs)[p..];
    }
    assert WrittenAt(Under(s, xs), Under(s, ys), p, item', replaced);
  }

  lemma UnderUnder(p: Str, s: Str, xs: seq<Item>)
    ensures Under(p, Under(s, xs)) == Under(p + s, xs)
  {
    forall i | 0 <= i < |xs| ensures Under(p, Under(s, xs))[i] == Under(p + s, xs)[i] {
      assert p + (s + xs[i].key) == p + s + xs[i].key;
    }
  }

  lemma {:induction false} LeavesOfAppend(a: seq<Entry>, b: seq<Entry>)
    ensures Leaves(a + b) == Leaves(a) + Leaves(b)
  {
    if a == [] {
      assert a + b == b;
    } else {
      assert (a + b)[1..] == a[1..] + b;
      LeavesOfAppend(a[1..], b);
    }
  }

  lemma LeavesAround(a: seq<Entry>, e: Entry, b: seq<Entry>)
    ensures Leaves(a + [e] + b) == Leaves(a) + EntryLeaves(e) + Leaves(b)
  {
    LeavesOfAppend(a + [e], b);
    LeavesOfAppend(a, [e]);
    assert Leaves([e]) == EntryLeaves(e) + Leaves([]);
  }

  lemma LeavesOfTake(es: seq<Entry>, i: nat)
    requires i <= |es|
    ensures i > 0 ==> Leaves(es[..i]) == Leaves(es[..i - 1]) + EntryLeaves(es[i - 1])
    ensures i == 0 ==> Leaves(es[..i]) == []
    ensures i == |es| ==> es[..i] == es
    ensures |Leaves(es[..i])| <= |Leaves(es)|
  {
    assert es == es[..i] + es[i..];
    LeavesOfAppend(es[..i], es[i..]);
    if i > 0 {
      assert es[..i] == es[..i - 1] + [es[i - 1]];
      LeavesOfAppend(es[..i - 1], [es[i - 1]]);
      assert Leaves([es[i - 1]]) == EntryLeaves(es[i - 1]) + Leaves([]);
    }
  }

  /** True when the key is held by a leaf whose own name is not empty. */
  predicate HeldByName(o: Option<Entry>) {
    o.Some? && o.value.name != []
  }

  /** A put writes exactly one pair of the listing. It goes over the old pair when the
      key is held by a leaf with a name of its own, and beside it otherwise. Every other
      pair, shadowed or not, survives the leaf and branch splits. */
  lemma {:induction false} PutWritesOnePair(base: Str, es: seq<Entry>, key: Str, value: Str, apnd: bool)
    requires ValidEntries(base, es)
    ensures Written(Leaves(es), Leaves(Put(base, es, key, value, apnd)),
                    Item(key, Kept(es, key, apnd) + [value]), HeldByName(Find(es, key)))
    decreases es, 1
  {
    hide Slot, Leaves, EntryLeaves, Written, Touch, ValidEntry;
    var i := Slot(es, key);
    if key == [] || i == |es| {
      PutNewLeaf(base, es, key, value, apnd);
    } else {
      var e, e' := es[i], Touch(base, es[i], key, value, apnd);
      assert ValidEntry(base, e);
      TouchWritesOnePair(base, e, key, value, apnd);
      assert es == es[..i] + [e] + es[i + 1..];
      assert es[i := e'] == es[..i] + [e'] + es[i + 1..];
      LeavesAround(es[..i], e, es[i + 1..]);
      LeavesAround(es[..i], e', es[i + 1..]);
      WrittenInside(Leaves(es[..i]), EntryLeaves(e), EntryLeaves(e'), Leaves(es[i + 1..]),
                    Item(key, Kept(es, key, apnd) + [value]), HeldByName(Find(es, key)));
    }
  }

  lemma NewLeafIsUnheld(base: Str, es: seq<Entry>, key: Str)
    requires ValidEntries(base, es)
    requires key == [] || Slot(es, key) == |es|
    ensures !HeldByName(Find(es, key))
  {
    var i := Slot(es, key);
    if i < |es| {
      assert ValidEntry(base, es[i]);
    }
  }

  lemma PutNewLeaf(base: Str, es: seq<Entry>, key: Str, value: Str, apnd: bool)
    requires ValidEntries(base, es)
    requires key == [] || Slot(es, key) == |es|
    ensures Written(Leaves(es), Leaves(Put(base, es, key, value, apnd)),
                    Item(key, Kept(es, key, apnd) + [value]), HeldByName(Find(es, key)))
  {
    NewLeafIsUnheld(base, es, key);
    assert Kept(es, key, apnd) + [value] == [value];
    var leaf := LeafOf(key, [value]);
    if key == [] {
      AddedWritesOnePair(es, 0, leaf);
      assert AddSorted(es, leaf) == InsertAt(es, 0, leaf);
    } else {
      assert !Duplicate(es, leaf);
      AddedWritesOnePair(es, InsertPosition(es, key), leaf);
    }
  }

  lemma AddedWritesOnePair(es: seq<Entry>, p: nat, leaf: Entry)
    requires p <= |es| && leaf.etype.LeafEntry?
    ensures Written(Leaves(es), Leaves(InsertAt(es, p, leaf)), Item(leaf.name, leaf.ref), false)
  {
    hide Leaves, Written;
    LeafBetween(es[..p], leaf, es[p..]);
    Rejoin(es, p, leaf);
  }

  lemma Rejoin(es: seq<Entry>, p: nat, e: Entry)
    requires p <= |es|
    ensures es[..p] + es[p..] == es && InsertAt(es, p, e) == es[..p] + [e] + es[p..]
  {
  }

  lemma LeafBetween(a: seq<Entry>, leaf: Entry, b: seq<Entry>)
    requires leaf.etype.LeafEntry?
    ensures Written(Leaves(a + b), Leaves(a + [leaf] + b), Item(leaf.name, leaf.ref), false)
  {
    LeavesAround(a, leaf, b);
    LeavesOfAppend(a, b);
    WrittenBetween(Leaves(a), Item(leaf.name, leaf.ref), Leaves(b));
  }

  lemma {:induction false} TouchWritesOnePair(base: Str, e: Entry, key: Str, value: Str, apnd: bool)
    requires ValidEntry(base, e) && key != [] && Head(e.name) == Head(key)
    ensures Written(EntryLeaves(e), EntryLeaves(Touch(base, e, key, value, apnd)),
                    Item(key, EntryKept(e, key, apnd) + [value]), HeldByName(EntryFind(e, key)))
    decreases e
  {
    hide Leaves, Find, Slot, Split, ValidEntries, Put;
    var n := CommonLength(e.name, key);
    assert e.name[..n] == key[..n];
    var item := Item(key, EntryKept(e, key, apnd) + [value]);
    if e.etype.LeafEntry? && e.name == key {
      assert WrittenAt(EntryLeaves(e), [item], 0, item, true);
    } else if e.etype.IntermediateEntry? && n == |e.name| {
      var child, ks := e.manifest.value, key[n..];
      assert key == e.name + ks;
      var put := Put(base + e.name, child.entries, ks, value, apnd);
      PutWritesOnePair(base + e.name, child.entries, ks, value, apnd);
      WrittenUnder(e.name, Leaves(child.entries), Leaves(put),
                   Item(ks, Kept(child.entries, ks, apnd) + [value]), HeldByName(Find(child.entries, ks)));
    } else {
      SplitIsUpdate(base, e, n, key, value, key);
      assert item == Item(key, [value]);
      SplitAddsOnePair(base, e, n, key, value);
    }
  }

  lemma SplitAddsOnePair(base: Str, e: Entry, n: nat, key: Str, value: Str)
    requires ValidEntry(base, e) && 0 < n <= |key| && n <= |e.name| && e.name[..n] == key[..n]
    requires Head(e.name[n..]) != Head(key[n..])
    ensures Written(EntryLeaves(e), EntryLeaves(Split(base, e, n, key, value)), Item(key, [value]), false)
  {
    var prefix, leaf, other := key[..n], LeafOf(key[n..], [value]), Rest(e, e.name[n..]);
    assert prefix + leaf.name == key && prefix + other.name == e.name;
    if e.manifest.Some? { UnderUnder(prefix, other.name, Leaves(e.manifest.value.entries)); }
    assert Under(prefix, EntryLeaves(other)) == EntryLeaves(e);
    PairAddsOnePair(base + prefix, prefix, leaf, other);
  }

  lemma PairAddsOnePair(base: Str, prefix: Str, leaf: Entry, other: Entry)
    requires leaf.etype.LeafEntry? && Head(leaf.name) != Head(other.name)
    ensures Written(Under(prefix, EntryLeaves(other)), Under(prefix, Leaves(Pair(base, leaf, other).entries)),
                    Item(prefix + leaf.name, leaf.ref), false)
  {
    hide Pair, Leaves, EntryLeaves, Written;
    var xs, item := EntryLeaves(other), Item(leaf.name, leaf.ref);
    PairInOrder(base, leaf, other);
    LeafBeside(leaf, other);
    if Head(leaf.name) < Head(other.name) {
      WrittenUnder(prefix, xs, Leaves([leaf, other]), item, false);
    } else {
      WrittenUnder(prefix, xs, Leaves([other, leaf]), item, false);
    }
  }

  lemma LeafIsItem(leaf: Entry)
    requires leaf.etype.LeafEntry?
    ensures EntryLeaves(leaf) == [Item(leaf.name, leaf.ref)]
  {
  }

  lemma LeafBeside(leaf: Entry, other: Entry)
    requires leaf.etype.LeafEntry?
    ensures Written(EntryLeaves(other), Leaves([leaf, other]), Item(leaf.name, leaf.ref), false)
    ensures Written(EntryLeaves(other), Leaves([other, leaf]), Item(leaf.name, leaf.ref), false)
  {
    hide Leaves, Written, EntryLeaves;
    var xs, item := EntryLeaves(other), Item(leaf.name, leaf.ref);
    LeafIsItem(leaf);
    LeavesOfTwo(leaf, other);
    LeavesOfTwo(other, leaf);
    WrittenBetween([], item, xs);
    assert [] + xs == xs && [] + [item] + xs == [item] + xs;
    WrittenBetween(xs, item, []);
    assert xs + [] == xs && xs + [item] + [] == xs + [item];
  }

  lemma LeavesOfTwo(a: Entry, b: Entry)
    ensures Leaves([a, b]) == EntryLeaves(a) + EntryLeaves(b)
  {
    LeavesAround([], a, [b]);
    LeavesAround([], b, []);
    assert [] + [a] + [b] == [a, b] && [] + [b] + [] == [b];
  }

  lemma ContentsUpdate(xs: seq<Item>, ys: seq<Item>, key: Str, refs: Refs)
    requires forall k :: Assoc(ys, k) == if k == key then Some(refs) else Assoc(xs, k)
    ensures Contents(ys) == Contents(xs)[key := refs]
  {
    hide Contents, Assoc;
    var before, after := Contents(xs), Contents(ys);
    forall k
      ensures k in after <==> k in before || k == key
      ensures k in after ==> after[k] == if k == key then refs else before[k]
    {
      ContentsIsAssoc(xs, k);
      ContentsIsAssoc(ys, k);
    }
  }

  /** A put is an update of the map the tree stands for. */
  lemma PutIsMapUpdate(base: Str, es: seq<Entry>, key: Str, value: Str, apnd: bool)
    requires ValidEntries(base, es)
    ensures ValidEntries(base, Put(base, es, key, value, apnd))
    ensures Contents(Leaves(Put(base, es, key, value, apnd))) ==
            Contents(Leaves(es))[key := Kept(es, key, apnd) + [value]]
  {
    var es', refs := Put(base, es, key, value, apnd), Kept(es, key, apnd) + [value];
    PutIsUpdate(base, es, key, value, apnd, key);
    forall k ensures Assoc(Leaves(es'), k) == if k == key then Some(refs) else Assoc(Leaves(es), k) {
      PutIsUpdate(base, es, key, value, apnd, k);
      LookupIsAssoc(base, es, k);
      LookupIsAssoc(base, es', k);
    }
    ContentsUpdate(Leaves(es), Leaves(es'), key, refs);
  }

  /** A put adds a pair exactly when no leaf with a name of its own holds the key. */
  lemma PutCounts(base: Str, es: seq<Entry>, key: Str, value: Str, apnd: bool)
    requires ValidEntries(base, es)
    ensures |Leaves(Put(base, es, key, value, apnd))| ==
            |Leaves(es)| + if HeldByName(Find(es, key)) then 0 else 1
  {
    PutWritesOnePair(base, es, key, value, apnd);
  }

  /** Re-putting a key whose leaf is empty-named leaves the old leaf behind, shadowed. */
  lemma PutShadows(base: Str, es: seq<Entry>, key: Str, value: Str, apnd: bool)
    requires ValidEntries(base, es)
    requires Find(es, key).Some? && Find(es, key).value.name == []
    ensures Lookup(Put(base, es, key, value, apnd), key) == Some([value])
    ensures Item(key, Lookup(es, key).value) in Leaves(Put(base, es, key, value, apnd))
  {
    hide Leaves, Find, Slot, Put, ValidEntries;
    PutIsUpdate(base, es, key, value, apnd, key);
    assert Kept(es, key, apnd) + [value] == [value];
    PutWritesOnePair(base, es, key, value, apnd);
    var xs, ys := Leaves(es), Leaves(Put(base, es, key, value, apnd));
    LookupIsAssoc(base, es, key);
    var i := AssocIndex(xs, key);
    var p: nat :| WrittenAt(xs, ys, p, Item(key, Kept(es, key, apnd) + [value]), false);
    assert ys[if i < p then i else i + 1] == xs[i];
  }

  lemma {:induction false} AssocIndex(xs: seq<Item>, key: Str) returns (i: nat)
    requires Assoc(xs, key).Some?
    ensures i < |xs| && xs[i] == Item(key, Assoc(xs, key).value)
    ensures forall j :: 0 <= j < i ==> xs[j].key != key
  {
    if xs[0].key == key {
      i := 0;
    } else {
      var k := AssocIndex(xs[1..], key);
      i := k + 1;
    }
  }

  // ----- At most one empty leaf per node -----

  /** The predicate survives exactly the puts that do not re-put an empty-named leaf. */
  lemma {:induction false} OneEmptyAfterPut(base: Str, es: seq<Entry>, key: Str, value: Str, apnd: bool)
    requires ValidEntries(base, es) && OneEmpty(es)
    ensures OneEmpty(Put(base, es, key, value, apnd)) <==>
            !(Find(es, key).Some? && Find(es, key).value.name == [])
    decreases es
  {
    hide Slot, ValidEntry, Touch, EntryFind, AddSorted;
    var i := Slot(es, key);
    if key == [] || i == |es| {
      OneEmptyAfterNewLeaf(base, es, key, value);
    } else {
      var e, e' := es[i], Touch(base, es[i], key, value, apnd);
      assert ValidEntry(base, e);
      TouchIsUpdate(base, e, key, value, apnd, key);
      OneEmptyAfterTouch(base, e, key, value, apnd);
      OneEmptyReplaced(es, i, e');
    }
  }

  lemma OneEmptyReplaced(es: seq<Entry>, i: nat, e: Entry)
    requires OneEmpty(es) && i < |es| && e.name != []
    ensures OneEmpty(es[i := e]) <==> (e.manifest.Some? ==> OneEmpty(e.manifest.value.entries))
  {
    var es' := es[i := e];
    assert es'[i] == e;
  }

  lemma OneEmptyAfterNewLeaf(base: Str, es: seq<Entry>, key: Str, value: Str)
    requires ValidEntries(base, es) && OneEmpty(es)
    requires key == [] || Slot(es, key) == |es|
    ensures OneEmpty(AddSorted(es, LeafOf(key, [value]))) <==>
            !(Find(es, key).Some? && Find(es, key).value.name == [])
  {
    hide InsertPosition, Slot;
    var leaf := LeafOf(key, [value]);
    var p := if key == [] then 0 else InsertPosition(es, key);
    var r := InsertAt(es, p, leaf);
    assert AddSorted(es, leaf) == r by {
      assert key == [] ==> [leaf] + es == r;
    }
    var s := Slot(es, key);
    if s < |es| {
      assert ValidEntry(base, es[s]);
      assert r[0].name == [] && r[s + 1].name == [];
    } else {
      forall i | 0 <= i < |r| && r[i].manifest.Some? ensures OneEmpty(r[i].manifest.value.entries) {
        assert r[i] == if i < p then es[i] else es[i - 1];
      }
    }
  }

  lemma {:induction false} OneEmptyAfterTouch(base: Str, e: Entry, key: Str, value: Str, apnd: bool)
    requires ValidEntry(base, e) && key != [] && Head(e.name) == Head(key)
    requires e.manifest.Some? ==> OneEmpty(e.manifest.value.entries)
    ensures var m := Touch(base, e, key, value, apnd).manifest;
            (m.Some? ==> OneEmpty(m.value.entries)) <==>
            !(EntryFind(e, key).Some? && EntryFind(e, key).value.name == [])
    decreases e
  {
    var n := CommonLength(e.name, key);
    assert e.name[..n] == key[..n];
    if e.etype.LeafEntry? && e.name == key {
    } else if e.etype.IntermediateEntry? && n == |e.name| {
      OneEmptyAfterPut(base + e.name, e.manifest.value.entries, key[n..], value, apnd);
    } else {
      SplitIsUpdate(base, e, n, key, value, key);
      PairHasOneEmpty(base + key[..n], LeafOf(key[n..], [value]), Rest(e, e.name[n..]));
    }
  }

  lemma PairHasOneEmpty(base: Str, a: Entry, b: Entry)
    requires Head(a.name) != Head(b.name) && a.manifest.None?
    requires b.manifest.Some? ==> OneEmpty(b.manifest.value.entries)
    ensures OneEmpty(Pair(base, a, b).entries)
  {
    hide Pair;
    PairInOrder(base, a, b);
  }
}
