/** Which keys are held by empty-named leaves, said of the keys alone. */
module Shadowing {
  import opened Bytes
  import opened Tree
  import opened Insert
  import opened Remove

  /** A put of `key` would add a leaf in front of the one that holds the key. */
  predicate EmptyNamed(es: seq<Entry>, key: Str) {
    Find(es, key).Some? && Find(es, key).value.name == []
  }

  /** The key is stored, and it is empty or starts another stored key. */
  predicate Shadows(m: map<Str, Refs>, key: Str) {
    key in m && (key == [] || exists y :: y in m && key < y)
  }

  predicate Named(es: seq<Entry>) {
    exists i :: 0 <= i < |es| && es[i].name != []
  }

  /** Every node below the root has an entry with a name. Puts make no other nodes. */
  predicate Bushy(es: seq<Entry>)
    decreases es
  {
    forall i :: 0 <= i < |es| && es[i].manifest.Some? ==>
      Named(es[i].manifest.value.entries) && Bushy(es[i].manifest.value.entries)
  }

  /** In every valid tree, a stored key that starts another stored key is held by an
      empty-named leaf. */
  lemma {:induction false} ExtendedIsEmptyNamed(base: Str, es: seq<Entry>, key: Str, x: Str)
    requires ValidEntries(base, es) && Find(es, key).Some? && Find(es, key + x).Some? && x != []
    ensures EmptyNamed(es, key)
    decreases es
  {
    var i := Slot(es, key);
    var e := es[i];
    assert ValidEntry(base, e);
    if key != [] {
      SlotIsUnique(es, key + x, i);
      if e.etype.IntermediateEntry? {
        assert (key + x)[|e.name|..] == key[|e.name|..] + x;
        ExtendedIsEmptyNamed(base + e.name, e.manifest.value.entries, key[|e.name|..], x);
      }
    }
  }

  lemma {:induction false} NamedHoldsKey(base: Str, es: seq<Entry>) returns (x: Str)
    requires ValidEntries(base, es) && Bushy(es) && Named(es)
    ensures x != [] && Find(es, x).Some?
    decreases es
  {
    var i :| 0 <= i < |es| && es[i].name != [];
    var e := es[i];
    assert ValidEntry(base, e);
    x := e.name;
    if e.etype.IntermediateEntry? {
      var y := NamedHoldsKey(base + e.name, e.manifest.value.entries);
      x := e.name + y;
      assert x[|e.name|..] == y;
    }
    SlotIsUnique(es, x, i);
  }

  /** In a bushy tree, a key held by an empty-named leaf below the root starts another key. */
  lemma {:induction false} EmptyNamedIsExtended(base: Str, es: seq<Entry>, key: Str) returns (x: Str)
    requires ValidEntries(base, es) && Bushy(es) && key != [] && EmptyNamed(es, key)
    ensures x != [] && Find(es, key + x).Some?
    decreases es
  {
    var i := Slot(es, key);
    var e := es[i];
    assert ValidEntry(base, e);
    assert Find(es, key) == EntryFind(e, key);
    assert e.etype.IntermediateEntry?;
    var below, k := e.manifest.value.entries, key[|e.name|..];
    if k == [] {
      x := NamedHoldsKey(base + e.name, below);
    } else {
      x := EmptyNamedIsExtended(base + e.name, below, k);
    }
    assert (key + x)[|e.name|..] == k + x;
    SlotIsUnique(es, key + x, i);
  }

  lemma EmptyIsEmptyNamed(base: Str, es: seq<Entry>)
    requires ValidEntries(base, es) && Find(es, []).Some?
    ensures EmptyNamed(es, [])
  {
    var i := Slot(es, []);
    assert ValidEntry(base, es[i]);
    assert Find(es, []) == EntryFind(es[i], []);
  }

  /** What a caller can tell from the keys: a key that shadows is held by an empty-named leaf,
      and in a bushy tree no other key is. */
  lemma ShadowsExactly(base: Str, es: seq<Entry>, key: Str)
    requires ValidEntries(base, es)
    ensures Shadows(Contents(Leaves(es)), key) ==> EmptyNamed(es, key)
    ensures Bushy(es) ==> (Shadows(Contents(Leaves(es)), key) <==> EmptyNamed(es, key))
  {
    hide Contents, Leaves, Bushy, Find, ValidEntries;
    var m := Contents(Leaves(es));
    LookupIsContents(base, es, key);
    if Shadows(m, key) {
      if key == [] {
        EmptyIsEmptyNamed(base, es);
      } else {
        var y :| y in m && key < y;
        LookupIsContents(base, es, y);
        assert y == key + y[|key|..];
        ExtendedIsEmptyNamed(base, es, key, y[|key|..]);
      }
      assert EmptyNamed(es, key);
    }
    if Bushy(es) && EmptyNamed(es, key) && key != [] {
      var x := EmptyNamedIsExtended(base, es, key);
      LookupIsContents(base, es, key + x);
      assert key < key + x;
    }
  }

  /** Puts keep a tree bushy. */
  lemma {:induction false} BushyAfterPut(base: Str, es: seq<Entry>, key: Str, value: Str, apnd: bool)
    requires ValidEntries(base, es) && Bushy(es)
    ensures Bushy(Put(base, es, key, value, apnd))
    ensures Named(es) ==> Named(Put(base, es, key, value, apnd))
    decreases es
  {
    hide Slot, ValidEntry, Touch, AddSorted;
    var i := Slot(es, key);
    if key == [] || i == |es| {
      BushyAfterAdd(es, LeafOf(key, [value]));
    } else {
      var e, e' := es[i], Touch(base, es[i], key, value, apnd);
      assert ValidEntry(base, e);
      TouchIsUpdate(base, e, key, value, apnd, key);
      BushyAfterTouch(base, e, key, value, apnd);
      assert es[i := e'][i].name != [];
    }
  }

  lemma BushyAfterAdd(es: seq<Entry>, leaf: Entry)
    requires Bushy(es) && leaf.manifest.None?
    ensures Bushy(AddSorted(es, leaf)) && (Named(es) ==> Named(AddSorted(es, leaf)))
  {
    hide InsertPosition, Duplicate;
    if leaf.name == [] || !Duplicate(es, leaf) {
      var p := if leaf.name == [] then 0 else InsertPosition(es, leaf.name);
      var r := InsertAt(es, p, leaf);
      assert AddSorted(es, leaf) == r;
      if j :| 0 <= j < |es| && es[j].name != [] {
        assert r[if j < p then j else j + 1] == es[j];
      }
      forall j | 0 <= j < |r| && r[j].manifest.Some?
        ensures Named(r[j].manifest.value.entries) && Bushy(r[j].manifest.value.entries)
      {
        assert r[j] == es[if j < p then j else j - 1];
      }
    }
  }

  lemma {:induction false} BushyAfterTouch(base: Str, e: Entry, key: Str, value: Str, apnd: bool)
    requires ValidEntry(base, e) && key != [] && Head(e.name) == Head(key)
    requires e.manifest.Some? ==> Named(e.manifest.value.entries) && Bushy(e.manifest.value.entries)
    ensures var m := Touch(base, e, key, value, apnd).manifest;
            m.Some? ==> Named(m.value.entries) && Bushy(m.value.entries)
    decreases e
  {
    hide Put, Find, Slot, ValidEntries;
    var n := CommonLength(e.name, key);
    assert e.name[..n] == key[..n];
    if e.etype.LeafEntry? && e.name == key {
    } else if e.etype.IntermediateEntry? && n == |e.name| {
      BushyAfterPut(base + e.name, e.manifest.value.entries, key[n..], value, apnd);
    } else {
      PairIsBushy(base + key[..n], LeafOf(key[n..], [value]), Rest(e, e.name[n..]));
    }
  }

  lemma PairIsBushy(base: Str, a: Entry, b: Entry)
    requires Head(a.name) != Head(b.name) && a.manifest.None?
    requires b.manifest.Some? ==> Named(b.manifest.value.entries) && Bushy(b.manifest.value.entries)
    ensures Named(Pair(base, a, b).entries) && Bushy(Pair(base, a, b).entries)
  {
    hide Pair;
    PairInOrder(base, a, b);
    var es := Pair(base, a, b).entries;
    assert es[0].name != [] || es[1].name != [];
  }

  // ----- Which deletes are refused -----

  lemma {:induction false} NamedIsNotSole(base: Str, es: seq<Entry>, key: Str)
    requires ValidEntries(base, es) && Bushy(es) && Named(es)
    ensures !SoleEmpty(es, key)
    decreases es
  {
    var i := Slot(es, key);
    if i < |es| && es[i].etype.IntermediateEntry? && es[i].name <= key {
      assert ValidEntry(base, es[i]);
      NamedIsNotSole(base + es[i].name, es[i].manifest.value.entries, key[|es[i].name|..]);
    }
  }

  /** In a tree that puts have built, the only delete that is refused for its node is that of the
      empty key as the only one: that too can be told from the keys. */
  lemma SoleEmptyExactly(base: Str, es: seq<Entry>, key: Str)
    requires ValidEntries(base, es) && Bushy(es)
    ensures SoleEmpty(es, key) <==> key == [] && |es| == 1 && es[0].name == []
    ensures OneEmpty(es) ==> (SoleEmpty(es, key) <==> key == [] && Contents(Leaves(es)).Keys == {[]})
  {
    hide Bushy, Contents, Leaves;
    if Named(es) {
      NamedIsNotSole(base, es, key);
      var x := NamedHoldsKey(base, es);
      LookupIsContents(base, es, x);
    } else {
      EmptyNamesOnly(base, es, key);
    }
  }

  lemma EmptyNamesOnly(base: Str, es: seq<Entry>, key: Str)
    requires ValidEntries(base, es) && !Named(es)
    ensures SoleEmpty(es, key) <==> key == [] && |es| == 1
    ensures OneEmpty(es) ==> |es| <= 1
    ensures Contents(Leaves(es)).Keys == if es == [] then {} else {[]}
  {
    assert forall i :: 0 <= i < |es| ==> es[i].name == [] && ValidEntry(base, es[i]);
    if |es| > 1 {
      assert es[0].name == [] && es[1].name == [];
    }
    SlotIsUnique(es, key, if key == [] then 0 else |es|);
    forall k ensures k in Contents(Leaves(es)) <==> k == [] && es != [] {
      LookupIsContents(base, es, k);
      SlotIsUnique(es, k, if k == [] then 0 else |es|);
    }
  }
}
