/** The in-memory tree with real child pointers, updated in place. */
module Pointers {
  import opened Bytes
  import opened Tree
  import opened Insert
  import opened Steps

  /** An entry whose child, if any, is another node of the heap. */
  datatype Cell = Cell(name: Str, etype: EntryType, ref: Refs, manifest: Node?)

  class Node {
    const name: Str
    const mutable: bool
    var entries: seq<Cell>

    /** The loaded tree that the nodes below represent, and the nodes themselves. */
    ghost var view: Manifest
    ghost var Repr: set<object>

    ghost predicate Valid()
      reads this, Repr
      decreases Repr
      ensures Valid() ==> this in Repr
    {
      && this in Repr && view.name == name && view.mutable == mutable && |entries| == |view.entries|
      && (forall i :: 0 <= i < |entries| ==> CellOk(entries[i], view.entries[i]))
      && forall i, j :: 0 <= i < j < |entries| ==> Footprint(entries[i]) !! Footprint(entries[j])
    }

    /** A cell of this node represents an entry of the tree. */
    ghost predicate CellOk(c: Cell, f: Entry)
      requires this in Repr
      reads this, Repr
      decreases Repr, 0
    {
      && c.name == f.name && c.etype == f.etype && c.ref == f.ref
      && (c.manifest == null <==> f.manifest.None?)
      && (c.manifest != null ==>
           && c.manifest in Repr && c.manifest.Repr <= Repr && this !in c.manifest.Repr
           && c.manifest.Valid() && f.manifest == Some(c.manifest.view))
    }

    constructor (name: Str, mutable: bool)
      ensures Valid() && fresh(Repr) && Repr == {this} && entries == []
      ensures view == Manifest(name, mutable, []) && this.name == name && this.mutable == mutable
    {
      this.name, this.mutable, entries := name, mutable, [];
      view, Repr := Manifest(name, mutable, []), {this};
    }

    /** The node below a split: the new leaf and what is left of the old entry, which keeps its
        child by pointer. */
    constructor Split(name: Str, leaf: Cell, other: Cell, ghost f: Entry)
      requires leaf.etype.LeafEntry? && leaf.manifest == null && Head(leaf.name) != Head(other.name)
      requires Holds(other, f)
      ensures Valid() && fresh(Repr - Footprint(other)) && Repr == {this} + Footprint(other)
      ensures view == Pair(name, LeafOf(leaf.name, leaf.ref), f)
    {
      this.name, this.mutable := name, false;
      entries := if Head(leaf.name) < Head(other.name) then [leaf, other] else [other, leaf];
      view := Pair(name, LeafOf(leaf.name, leaf.ref), f);
      Repr := {this} + Footprint(other);
      new;
      hide Pair;
      PairInOrder(name, LeafOf(leaf.name, leaf.ref), f);
      assert CellOk(other, f) && CellOk(leaf, LeafOf(leaf.name, leaf.ref));
    }

    /** Puts other cells in the place of the old ones; `extra` are the nodes that come in. */
    method AssignCells(es: seq<Cell>, ghost fs: seq<Entry>, ghost extra: set<object>)
      requires this in Repr && view.name == name && view.mutable == mutable && |es| == |fs|
      requires forall j :: 0 <= j < |es| ==> Fits(es[j], fs[j], extra)
      requires forall j, k :: 0 <= j < k < |es| ==> Footprint(es[j]) !! Footprint(es[k])
      modifies this
      ensures Valid() && Repr == old(Repr) + extra && view == old(view).(entries := fs)
    {
      entries, view, Repr := es, view.(entries := fs), Repr + extra;
      forall j | 0 <= j < |entries| ensures CellOk(entries[j], view.entries[j]) {
        assert old(Fits(es[j], fs[j], extra));
      }
    }

    ghost predicate Fits(c: Cell, f: Entry, extra: set<object>)
      reads this, c.manifest, Footprint(c)
    {
      Holds(c, f) && this !in Footprint(c) && Footprint(c) <= Repr + extra && (c.manifest != null ==> c.manifest in c.manifest.Repr)
    }

    /** Replaces the cell at `i`, whose child has been put where nothing else refers to it. */
    method SetCell(i: nat, c: Cell, ghost f: Entry)
      requires this in Repr && view.name == name && view.mutable == mutable && |entries| == |view.entries| && i < |entries|
      requires forall j :: 0 <= j < |entries| && j != i ==> CellOk(entries[j], view.entries[j])
      requires forall j, k :: 0 <= j < k < |entries| && j != i && k != i ==> Footprint(entries[j]) !! Footprint(entries[k])
      requires Holds(c, f) && this !in Footprint(c)
      requires forall j :: 0 <= j < |entries| && j != i ==> Footprint(entries[j]) !! Footprint(c)
      modifies this
      ensures Valid() && Repr == old(Repr) + Footprint(c)
      ensures view == old(view).(entries := old(view).entries[i := f])
    {
      var es := entries[i := c];
      ghost var fs := view.entries[i := f];
      forall j | 0 <= j < |es| ensures Fits(es[j], fs[j], Footprint(c)) {
        assert j != i ==> CellOk(entries[j], view.entries[j]);
      }
      AssignCells(es, fs, Footprint(c));
    }

    /** Adds a leaf whose first byte is new to this node, or whose name is empty. */
    method AddLeaf(key: Str, value: Str)
      requires Valid() && ValidTree(view) && Fresh(view.entries, key)
      modifies this
      ensures Valid() && Repr == old(Repr)
      ensures view == old(view).(entries := AddSorted(old(view).entries, LeafOf(key, [value])))
    {
      hide ValidEntries, InsertPosition;
      var p := 0;
      if key != [] {
        while p < |entries| && (entries[p].name == [] || entries[p].name[0] <= key[0])
          invariant p <= |entries|
          invariant forall j :: 0 <= j < p ==> Head(entries[j].name) <= Head(key)
          modifies {}
        {
          p := p + 1;
        }
        assert forall j :: 0 <= j < |entries| ==> CellOk(entries[j], view.entries[j]);
        InsertPositionIsUnique(view.entries, key, p);
        NoDuplicate(view.entries, LeafOf(key, [value]));
      }
      InsertCell(p, Cell(key, LeafEntry, [value], null));
      assert key == [] ==> InsertAt(old(view).entries, 0, LeafOf(key, [value])) == [LeafOf(key, [value])] + old(view).entries;
    }

    method InsertCell(p: nat, c: Cell)
      requires Valid() && p <= |entries| && c.manifest == null && c.etype.LeafEntry?
      modifies this
      ensures Valid() && Repr == old(Repr)
      ensures view == old(view).(entries := InsertAt(old(view).entries, p, LeafOf(c.name, c.ref)))
    {
      var es := entries[..p] + [c] + entries[p..];
      ghost var fs := InsertAt(view.entries, p, LeafOf(c.name, c.ref));
      forall j | 0 <= j < |es| ensures Fits(es[j], fs[j], {}) {
        if j != p {
          var k := if j < p then j else j - 1;
          assert es[j] == entries[k] && fs[j] == view.entries[k] && CellOk(entries[k], view.entries[k]);
        }
      }
      forall j, k | 0 <= j < k < |es| ensures Footprint(es[j]) !! Footprint(es[k]) {
        assert es[j] == if j < p then entries[j] else if j == p then c else entries[j - 1];
        assert es[k] == if k < p then entries[k] else if k == p then c else entries[k - 1];
      }
      AssignCells(es, fs, {});
    }

    lemma NamesAgree(key: Str, i: nat)
      requires Valid() && i <= |entries| && forall j :: 0 <= j < i ==> Head(entries[j].name) != Head(key)
      ensures key != [] && (i < |entries| ==> Head(entries[i].name) == Head(key)) ==> Slot(view.entries, key) == i
    {
      assert forall j :: 0 <= j < |entries| ==> CellOk(entries[j], view.entries[j]);
      if key != [] && (i < |entries| ==> Head(entries[i].name) == Head(key)) {
        SlotIsUnique(view.entries, key, i);
      }
    }

    /** Puts the rest of the key into the child below the cell at `i`. */
    method Descend(i: nat, ks: Str, value: Str, apnd: bool)
      requires Valid() && ValidTree(view) && i < |entries| && entries[i].manifest != null && view.entries[i].manifest.Some?
      modifies Repr
      ensures Valid() && fresh(Repr - old(Repr))
      ensures view == old(view).(entries := old(view).entries[i := Descended(old(view).entries[i], ks, value, apnd)])
      decreases Repr, 0
    {
      var child := entries[i].manifest;
      ghost var f := view.entries[i];
      assert CellOk(entries[i], f) && ValidEntry(view.name, f);
      child.PutInPlace(ks, value, apnd);
      SetCell(i, entries[i], f.(manifest := Some(child.view)));
    }

    /** The cell that shares the key's first byte, and what the two names share. */
    method FindCell(key: Str) returns (i: nat, prefix: Str, entrySuffix: Str, keySuffix: Str)
      requires Valid() && key != []
      ensures i == Slot(view.entries, key) && |entries| == |view.entries|
      ensures i < |entries| ==>
        && prefix != [] && view.entries[i].name == prefix + entrySuffix && key == prefix + keySuffix
        && (entrySuffix != [] && keySuffix != [] ==> entrySuffix[0] != keySuffix[0])
    {
      hide InsertPosition, CommonLength, ValidEntries, Slot;
      i, prefix, entrySuffix, keySuffix := 0, [], [], [];
      assert forall j :: 0 <= j < |entries| ==> CellOk(entries[j], view.entries[j]);
      while i < |entries|
        invariant i <= |entries|
        invariant forall j :: 0 <= j < i ==> Head(entries[j].name) != Head(key)
      {
        prefix, entrySuffix, keySuffix := LongestCommonPrefix(entries[i].name, key);
        if prefix != [] {
          break;
        }
        i := i + 1;
      }
      NamesAgree(key, i);
    }

    method UpdateCell(i: nat, value: Str, apnd: bool)
      requires Valid() && i < |entries| && i < |view.entries| && view.entries[i].manifest.None?
      modifies this
      ensures Valid() && Repr == old(Repr)
      ensures view == old(view).(entries := old(view).entries[i :=
        old(view).entries[i].(ref := (if apnd then old(view).entries[i].ref else []) + [value])])
    {
      var cell := entries[i];
      ghost var f := view.entries[i];
      assert CellOk(cell, f);
      var refs: Refs := [];
      if apnd {
        refs := cell.ref;
      }
      SetCell(i, cell.(ref := refs + [value]), f.(ref := refs + [value]));
    }

    /** One put, in place: the nodes on the way are updated, the others are not touched. */
    method PutInPlace(key: Str, value: Str, apnd: bool)
      requires Valid() && ValidTree(view)
      modifies Repr
      ensures Valid() && fresh(Repr - old(Repr))
      ensures view == PutTree(old(view), key, value, apnd)
      decreases Repr
    {
      hide Slot, Insert.Put, AddSorted, Insert.Split;
      if key == [] {
        PutNothing(view, key, value, apnd);
        AddLeaf(key, value);
        return;
      }
      var i, prefix, entrySuffix, keySuffix := FindCell(key);
      if i == |entries| {
        PutNothing(view, key, value, apnd);
        AddLeaf(key, value);
        return;
      }
      ghost var f := view.entries[i];
      assert CellOk(entries[i], f) && ValidEntry(name, f);
      if entries[i].etype.LeafEntry? && entries[i].name == key {
        UpdatePut(view, i, key, value, apnd);
        UpdateCell(i, value, apnd);
      } else if entries[i].etype.IntermediateEntry? && entrySuffix == [] {
        assert f.name == prefix;
        DescendPut(view, i, key, value, apnd);
        Descend(i, keySuffix, value, apnd);
      } else {
        SplitPut(view, i, prefix, entrySuffix, keySuffix, value, apnd);
        SplitCell(i, prefix, entrySuffix, keySuffix, value);
      }
    }

    /** Turns the cell at `i` into a branch to a new node. */
    method SplitCell(i: nat, prefix: Str, entrySuffix: Str, keySuffix: Str, value: Str)
      requires Valid() && ValidTree(view) && i < |entries| && i < |view.entries|
      requires view.entries[i].name == prefix + entrySuffix && Head(entrySuffix) != Head(keySuffix)
      modifies this
      ensures Valid() && fresh(Repr - old(Repr))
      ensures view == old(view).(entries := old(view).entries[i :=
        Insert.Split(name, old(view).entries[i], |prefix|, prefix + keySuffix, value)])
    {
      hide Pair, Insert.Split;
      var cell := entries[i];
      ghost var f := view.entries[i];
      assert CellOk(cell, f) && ValidEntry(name, f);
      SplitShape(name, f, prefix, entrySuffix, keySuffix, value);
      var below := new Node.Split(name + prefix, Cell(keySuffix, LeafEntry, [value], null),
        Cell(entrySuffix, cell.etype, if cell.etype.LeafEntry? then cell.ref else [], cell.manifest), Rest(f, entrySuffix));
      assert forall j :: 0 <= j < |entries| && j != i ==> CellOk(entries[j], view.entries[j]);
      SetCell(i, Cell(prefix, IntermediateEntry, cell.ref, below), BranchTo(prefix, f.ref, below.view));
    }
  }

  ghost function Footprint(c: Cell): set<object>
    reads c.manifest
  {
    if c.manifest == null then {} else c.manifest.Repr
  }

  /** The cell, with the nodes below it, represents the entry. */
  ghost predicate Holds(c: Cell, f: Entry)
    reads c.manifest, Footprint(c)
  {
    && c.name == f.name && c.etype == f.etype && c.ref == f.ref
    && (c.manifest == null <==> f.manifest.None?)
    && (c.manifest != null ==> c.manifest.Valid() && f.manifest == Some(c.manifest.view))
  }
}
