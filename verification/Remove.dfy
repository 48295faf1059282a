/** What a delete does to a loaded tree and to its stored form. */
module Remove {
  import opened Bytes
  import opened Tree
  import opened Listing
  import opened Storage

  function Without(es: seq<Entry>, i: nat): seq<Entry>
    requires i < |es|
  {
    es[..i] + es[i + 1..]
  }

  /** The entries of a node after the leaf that answers for `key` is spliced out. */
  function Remove(es: seq<Entry>, key: Str): seq<Entry>
    decreases es
  {
    var i := Slot(es, key);
    if i == |es| then es
    else
      var e := es[i];
      if e.etype.LeafEntry? then
        if e.name == key then Without(es, i) else es
      else if e.manifest.Some? && e.name <= key then
        var child := e.manifest.value;
        es[i := e.(manifest := Some(child.(entries := Remove(child.entries, key[|e.name|..]))))]
      else es
  }

  function RemoveTree(t: Manifest, key: Str): Manifest {
    t.(entries := Remove(t.entries, key))
  }

  /** The node that answers for `key` holds nothing but an empty-named leaf. */
  predicate SoleEmpty(es: seq<Entry>, key: Str)
    decreases es
  {
    var i := Slot(es, key);
    i < |es| &&
    var e := es[i];
    if e.etype.LeafEntry? then |es| == 1 && e.name == [] && key == []
    else e.manifest.Some? && e.name <= key && SoleEmpty(e.manifest.value.entries, key[|e.name|..])
  }

  lemma WithoutIsValid(base: Str, es: seq<Entry>, i: nat)
    requires ValidEntries(base, es) && i < |es|
    ensures ValidEntries(base, Without(es, i))
    ensures OneEmpty(es) ==> OneEmpty(Without(es, i))
  {
    hide ValidEntry;
    var r := Without(es, i);
    assert forall j :: 0 <= j < |r| ==> r[j] == es[if j < i then j else j + 1];
  }

  lemma ReplacedIsValid(base: Str, es: seq<Entry>, i: nat, e: Entry)
    requires ValidEntries(base, es) && i < |es| && ValidEntry(base, e) && e.name == es[i].name
    ensures ValidEntries(base, es[i := e])
    ensures OneEmpty(es) && (e.manifest.Some? ==> OneEmpty(e.manifest.value.entries)) ==> OneEmpty(es[i := e])
  {
    hide ValidEntry;
  }

  lemma {:induction false} RemoveIsValid(base: Str, es: seq<Entry>, key: Str)
    requires ValidEntries(base, es)
    ensures ValidEntries(base, Remove(es, key))
    ensures OneEmpty(es) ==> OneEmpty(Remove(es, key))
    decreases es
  {
    hide Slot;
    var i := Slot(es, key);
    if i < |es| {
      var e := es[i];
      assert ValidEntry(base, e);
      if e.etype.LeafEntry? {
        WithoutIsValid(base, es, i);
      } else if e.name <= key {
        var child, k := e.manifest.value, key[|e.name|..];
        RemoveIsValid(base + e.name, child.entries, k);
        var e' := e.(manifest := Some(child.(entries := Remove(child.entries, k))));
        assert ValidEntry(base, e');
        ReplacedIsValid(base, es, i, e');
        assert Remove(es, key) == es[i := e'];
      }
    }
  }

  // ----- Deleting drops the first pair of the key from the listing -----

  predicate DroppedAt(xs: seq<Item>, ys: seq<Item>, p: nat, key: Str) {
    && p < |xs| && xs[p].key == key
    && (forall j :: 0 <= j < p ==> xs[j].key != key)
    && ys == xs[..p] + xs[p + 1..]
  }

  ghost predicate Dropped(xs: seq<Item>, ys: seq<Item>, key: Str) {
    exists p: nat :: DroppedAt(xs, ys, p, key)
  }

  lemma DroppedInside(a: seq<Item>, xs: seq<Item>, ys: seq<Item>, b: seq<Item>, key: Str)
    requires Dropped(xs, ys, key) && forall j :: 0 <= j < |a| ==> a[j].key != key
    ensures Dropped(a + xs + b, a + ys + b, key)
  {
    var p: nat :| DroppedAt(xs, ys, p, key);
    var q := |a| + p;
    var whole := a + xs + b;
    assert whole[..q] == a + xs[..p] && whole[q + 1..] == xs[p + 1..] + b;
    assert a + ys + b == whole[..q] + whole[q + 1..];
    assert DroppedAt(whole, a + ys + b, q, key);
  }

  lemma DroppedUnder(s: Str, xs: seq<Item>, ys: seq<Item>, key: Str)
    requires Dropped(xs, ys, key)
    ensures Dropped(Under(s, xs), Under(s, ys), s + key)
  {
    var p: nat :| DroppedAt(xs, ys, p, key);
    var us := Under(s, xs);
    forall j | 0 <= j < p ensures us[j].key != s + key {
      assert (s + xs[j].key)[|s|..] == xs[j].key && (s + key)[|s|..] == key;
    }
    assert Under(s, ys) == us[..p] + us[p + 1..];
    assert DroppedAt(us, Under(s, ys), p, s + key);
  }

  lemma OtherHeads(base: Str, es: seq<Entry>, key: Str)
    requires ValidEntries(base, es)
    requires forall j :: 0 <= j < |es| ==> Head(es[j].name) != Head(key)
    ensures forall i :: 0 <= i < |Leaves(es)| ==> Leaves(es)[i].key != key
  {
    forall i | 0 <= i < |Leaves(es)| ensures Leaves(es)[i].key != key {
      LeavesHeads(base, es, i);
    }
  }

  /** Deleting a stored key drops exactly one pair: the first of its key. */
  lemma {:induction false} RemoveDropsOnePair(base: Str, es: seq<Entry>, key: Str)
    requires ValidEntries(base, es) && Find(es, key).Some?
    ensures Dropped(Leaves(es), Leaves(Remove(es, key)), key)
    decreases es
  {
    hide Slot, Dropped, Leaves, ValidEntries, Remove;
    var i := Slot(es, key);
    var e, a, b := es[i], es[..i], es[i + 1..];
    assert es == a + [e] + b;
    assert ValidEntry(base, e) && ValidEntries(base, a) by {
      SliceIsValid(base, es, i);
    }
    OtherHeads(base, a, key);
    RemoveStep(es, key);
    if e.etype.LeafEntry? {
      DropLeaf(a, e, b, key);
    } else {
      var child, k := e.manifest.value, key[|e.name|..];
      var e' := e.(manifest := Some(child.(entries := Remove(child.entries, k))));
      RemoveDropsOnePair(base + e.name, child.entries, k);
      DroppedUnder(e.name, Leaves(child.entries), Leaves(Remove(child.entries, k)), k);
      assert e.name + k == key;
      DropAround(a, e, e', b, key);
    }
  }

  lemma SliceIsValid(base: Str, es: seq<Entry>, i: nat)
    requires ValidEntries(base, es) && i < |es|
    ensures ValidEntry(base, es[i]) && ValidEntries(base, es[..i])
  {
  }

  /** What a delete makes of the entry on its way. */
  lemma RemoveStep(es: seq<Entry>, key: Str)
    requires Find(es, key).Some?
    ensures Slot(es, key) < |es|
    ensures var i := Slot(es, key); var e := es[i];
      if e.etype.LeafEntry? then e.name == key && Remove(es, key) == es[..i] + es[i + 1..]
      else
        && e.manifest.Some? && e.name <= key && Find(e.manifest.value.entries, key[|e.name|..]).Some?
        && var child := e.manifest.value;
           var e' := e.(manifest := Some(child.(entries := Remove(child.entries, key[|e.name|..]))));
           Remove(es, key) == es[..i] + [e'] + es[i + 1..]
  {
    hide Slot, Remove, Find;
    FoundStep(es, key);
    RemovedStep(es, key);
  }

  lemma FoundStep(es: seq<Entry>, key: Str)
    requires Find(es, key).Some?
    ensures Slot(es, key) < |es|
    ensures var e := es[Slot(es, key)];
      if e.etype.LeafEntry? then e.name == key
      else e.manifest.Some? && e.name <= key && Find(e.manifest.value.entries, key[|e.name|..]).Some?
  {
    hide Slot;
    assert Find(es, key) == EntryFind(es[Slot(es, key)], key);
  }

  lemma RemovedStep(es: seq<Entry>, key: Str)
    requires Slot(es, key) < |es|
    ensures var i := Slot(es, key); var e := es[i];
      if e.etype.LeafEntry? then e.name == key ==> Remove(es, key) == es[..i] + es[i + 1..]
      else e.manifest.Some? && e.name <= key ==>
        var child := e.manifest.value;
        Remove(es, key) == Replaced(es, i, e.(manifest := Some(child.(entries := Remove(child.entries, key[|e.name|..])))))
  {
    hide Slot;
  }

  function Replaced(es: seq<Entry>, i: nat, e: Entry): (r: seq<Entry>)
    requires i < |es|
    ensures r == es[..i] + [e] + es[i + 1..]
  {
    es[i := e]
  }

  lemma DropLeaf(a: seq<Entry>, e: Entry, b: seq<Entry>, key: Str)
    requires e.etype.LeafEntry? && e.name == key
    requires forall j :: 0 <= j < |Leaves(a)| ==> Leaves(a)[j].key != key
    ensures Dropped(Leaves(a + [e] + b), Leaves(a + b), key)
  {
    hide Leaves;
    LeavesAround(a, e, b);
    LeavesOfAppend(a, b);
    assert DroppedAt(EntryLeaves(e), [], 0, key);
    DroppedInside(Leaves(a), EntryLeaves(e), [], Leaves(b), key);
    assert Leaves(a) + [] + Leaves(b) == Leaves(a) + Leaves(b);
  }

  lemma DropAround(a: seq<Entry>, e: Entry, e': Entry, b: seq<Entry>, key: Str)
    requires Dropped(EntryLeaves(e), EntryLeaves(e'), key)
    requires forall j :: 0 <= j < |Leaves(a)| ==> Leaves(a)[j].key != key
    ensures Dropped(Leaves(a + [e] + b), Leaves(a + [e'] + b), key)
  {
    LeavesAround(a, e, b);
    LeavesAround(a, e', b);
    DroppedInside(Leaves(a), EntryLeaves(e), EntryLeaves(e'), Leaves(b), key);
  }

  lemma {:induction false} AssocOfDrop(xs: seq<Item>, p: nat, key: Str, k: Str)
    requires p < |xs| && xs[p].key == key
    ensures k != key ==> Assoc(xs[..p] + xs[p + 1..], k) == Assoc(xs, k)
  {
    assert xs == xs[..p] + xs[p..];
    AssocOfAppend(xs[..p], xs[p + 1..], k);
    AssocOfAppend(xs[..p], xs[p..], k);
  }

  /** Deleting changes no other key's answer; the key itself is gone when no older leaf was
      shadowed by the deleted one. */
  lemma RemoveIsMapRemoval(base: Str, es: seq<Entry>, key: Str)
    requires ValidEntries(base, es) && Find(es, key).Some?
    ensures forall k :: k != key ==> Lookup(Remove(es, key), k) == Lookup(es, k)
    ensures OneEmpty(es) ==> Contents(Leaves(Remove(es, key))) == Contents(Leaves(es)) - {key}
    ensures |Leaves(Remove(es, key))| == |Leaves(es)| - 1
  {
    hide Remove, Find, Slot, Leaves, ValidEntries, OneEmpty, Contents, Assoc;
    var r := Remove(es, key);
    var xs, ys := Leaves(es), Leaves(r);
    RemoveIsValid(base, es, key);
    RemoveDropsOnePair(base, es, key);
    var p: nat :| DroppedAt(xs, ys, p, key);
    forall k | k != key ensures Lookup(r, k) == Lookup(es, k) {
      LookupIsAssoc(base, es, k);
      LookupIsAssoc(base, r, k);
      AssocOfDrop(xs, p, key, k);
    }
    if OneEmpty(es) {
      LeavesAscend(base, es);
      forall j | 0 <= j < |ys| ensures ys[j].key != key {
        var q := if j < p then j else j + 1;
        assert ys[j] == xs[q];
        LessIsTotal(xs[q].key, xs[p].key);
      }
      var before, after := Contents(xs), Contents(ys);
      forall k
        ensures k in after <==> k in before && k != key
        ensures k in after ==> after[k] == before[k]
      {
        ContentsIsAssoc(xs, k);
        ContentsIsAssoc(ys, k);
        AssocOfDrop(xs, p, key, k);
      }
    }
  }

  // ----- Locating the leaf in the stored form -----

  /** The stored manifest and the position that answer for `key`: the scan goes on in the child
      of the entry that takes the key, embedded or by name. */
  function Locate(s: Blobs, m: Manifest, key: Str): Option<(Manifest, nat)>
    decreases |key|
  {
    var i := ScanSlot(m.entries, key);
    if i == |m.entries| || !Takes(m.entries[i], key) then None
    else
      var e := m.entries[i];
      if e.etype.LeafEntry? then Some((m, i))
      else if e.name != [] && Child(s, m.name, e).Some? then Locate(s, Child(s, m.name, e).value, key[|e.name|..])
      else None
  }

  /** What a lookup in the stored form answers. */
  function Answer(s: Blobs, m: Manifest, key: Str): Option<Refs> {
    var found := Locate(s, m, key);
    if found.Some? && found.value.1 < |found.value.0.entries| then Some(found.value.0.entries[found.value.1].ref) else None
  }

  lemma ScanSlotAlike(es: seq<Entry>, fs: seq<Entry>, key: Str)
    requires Alike(es, fs)
    ensures ScanSlot(es, key) == ScanSlot(fs, key)
  {
    ScanSlotIsUnique(es, key, ScanSlot(fs, key));
  }

  lemma SlotOfRep(flat: bool, s: Blobs, m: Manifest, t: Manifest, key: Str)
    requires Rep(flat, s, m, t)
    ensures Slot(m.entries, key) == Slot(t.entries, key)
  {
    assert forall i :: 0 <= i < |t.entries| ==> m.entries[i].name == t.entries[i].name;
    SlotIsUnique(m.entries, key, Slot(t.entries, key));
  }

  /** Lookup in the stored form agrees with the scan of the tree it represents. */
  lemma {:induction false} LocateIsScan(s: Blobs, m: Manifest, t: Manifest, key: Str)
    requires Rep(false, s, m, t) && MixedTree(t)
    ensures Locate(s, m, key).Some? <==> Scan(t.entries, key).Some?
    ensures Answer(s, m, key) == RefsOf(Scan(t.entries, key))
    ensures Locate(s, m, key).Some? ==>
      var (fm, i) := Locate(s, m, key).value;
      i < |fm.entries| && Scan(t.entries, key) == Some(fm.entries[i]) && t.name <= fm.name <= t.name + key
    decreases t
  {
    hide ScanSlot, ValidEntries, Ordered;
    var i := ScanSlot(t.entries, key);
    RepIsAlike(false, s, t.name, m.entries, t.entries);
    ScanSlotAlike(m.entries, t.entries, key);
    if i < |t.entries| && Takes(t.entries[i], key) {
      var e, f := m.entries[i], t.entries[i];
      assert ValidEntry(t.name, f) && RepEntry(false, s, t.name, e, f);
      assert Scan(t.entries, key) == EntryScan(f, key);
      if f.etype.IntermediateEntry? {
        var c, d, k := Child(s, m.name, e).value, f.manifest.value, key[|f.name|..];
        ValidIsMixed(d.name, d.entries);
        LocateIsScan(s, c, d, k);
        assert Locate(s, m, key) == Locate(s, c, k);
        assert t.name + f.name + k == t.name + key;
        if Locate(s, c, k).Some? {
          PrefixTransitive(t.name, f.name, Locate(s, c, k).value.0.name);
        }
      }
    }
  }

  /** On a valid tree it is the lookup of the tree, and the node that answers is the only leaf of
      its node behind an empty name exactly where the tree says so. */
  lemma LocateIsFind(s: Blobs, m: Manifest, t: Manifest, key: Str)
    requires Rep(false, s, m, t) && ValidTree(t)
    ensures Locate(s, m, key).Some? <==> Find(t.entries, key).Some?
    ensures Answer(s, m, key) == Lookup(t.entries, key)
    ensures SoleEmpty(t.entries, key) ==> Find(t.entries, key).Some?
    ensures Locate(s, m, key).Some? ==>
      var (fm, i) := Locate(s, m, key).value;
      && i < |fm.entries| && Find(t.entries, key) == Some(fm.entries[i])
      && t.name <= fm.name <= t.name + key
      && (|fm.entries| == 1 && fm.entries[0].name == [] <==> SoleEmpty(t.entries, key))
  {
    ValidIsMixed(t.name, t.entries);
    LocateIsScan(s, m, t, key);
    ScanIsFind(t.name, t.entries, key);
    SoleEmptyIsLocated(s, m, t, key);
  }

  lemma {:induction false} SoleEmptyIsLocated(s: Blobs, m: Manifest, t: Manifest, key: Str)
    requires Rep(false, s, m, t) && ValidTree(t)
    ensures SoleEmpty(t.entries, key) ==> Locate(s, m, key).Some?
    ensures Locate(s, m, key).Some? ==>
      var (fm, i) := Locate(s, m, key).value;
      |fm.entries| == 1 && fm.entries[0].name == [] <==> SoleEmpty(t.entries, key)
    decreases t
  {
    hide ScanSlot, Slot;
    var i := Slot(t.entries, key);
    RepIsAlike(false, s, t.name, m.entries, t.entries);
    ScanSlotAlike(m.entries, t.entries, key);
    ScanSlotIsSlot(t.name, t.entries, key);
    if i < |t.entries| && Takes(t.entries[i], key) {
      var e, f := m.entries[i], t.entries[i];
      assert ValidEntry(t.name, f) && RepEntry(false, s, t.name, e, f);
      if f.etype.IntermediateEntry? {
        var c, d, k := Child(s, m.name, e).value, f.manifest.value, key[|f.name|..];
        SoleEmptyIsLocated(s, c, d, k);
        assert Locate(s, m, key) == Locate(s, c, k);
      }
    }
  }

  /** For one key, it is enough that the entry on its way represents what it should. */
  lemma LocateAt(s: Blobs, m: Manifest, t: Manifest, key: Str)
    requires m.name == t.name && Alike(m.entries, t.entries)
    requires var i := ScanSlot(t.entries, key); i < |t.entries| && Takes(t.entries[i], key) ==>
      RepEntry(false, s, t.name, m.entries[i], t.entries[i]) && ValidEntry(t.name, t.entries[i])
    ensures Answer(s, m, key) == RefsOf(Scan(t.entries, key))
  {
    hide ScanSlot, ValidEntries;
    var i := ScanSlot(t.entries, key);
    ScanSlotAlike(m.entries, t.entries, key);
    if i < |t.entries| && Takes(t.entries[i], key) {
      var e, f := m.entries[i], t.entries[i];
      assert Scan(t.entries, key) == EntryScan(f, key);
      if f.etype.IntermediateEntry? {
        var c, d, k := Child(s, m.name, e).value, f.manifest.value, key[|f.name|..];
        ValidIsMixed(d.name, d.entries);
        LocateIsScan(s, c, d, k);
        assert Locate(s, m, key) == Locate(s, c, k);
      }
    }
  }

  // ----- Deleting from the stored form -----

  /** The store after the leaf that answers for `key` is spliced out of its node. */
  function Spliced(s: Blobs, m: Manifest, key: Str): Blobs {
    var found := Locate(s, m, key);
    if found.Some? && found.value.1 < |found.value.0.entries| then
      var (fm, i) := found.value;
      s[fm.name := fm.(entries := Without(fm.entries, i))]
    else s
  }

  /** Whether the leaf that answers for `key` lies in a node that is read under the node's own
      name, and not from its parent's snapshot; `own` says so of the node `m`. */
  predicate Owned(s: Blobs, m: Manifest, key: Str, own: bool)
    decreases |key|
  {
    var i := ScanSlot(m.entries, key);
    i < |m.entries| && Takes(m.entries[i], key) &&
    var e := m.entries[i];
    if e.etype.LeafEntry? then own
    else
      e.name != [] && Child(s, m.name, e).Some? &&
      Owned(s, Child(s, m.name, e).value, key[|e.name|..], e.manifest.None?)
  }

  /** What lookups read after the delete: the node without the leaf, if it is read by name. */
  function Reread(s: Blobs, m: Manifest, own: bool): Manifest {
    if own && m.name in s then s[m.name] else m
  }

  lemma RemoveLeafRep(flat: bool, s: Blobs, s': Blobs, m: Manifest, t: Manifest, i: nat, key: Str)
    requires Rep(flat, s, m, t) && ValidTree(t) && i < |t.entries| && i == Slot(t.entries, key)
    requires t.entries[i].etype.LeafEntry? && t.entries[i].name == key
    requires s' == s[t.name := m.(entries := Without(m.entries, i))]
    ensures Rep(flat, s', m, t) && Rep(flat, s', s'[t.name], RemoveTree(t, key)) && SameOutside(s, s', t.name)
  {
    hide RepEntry, ValidEntries;
    RepFrameTree(flat, s, s', m, t);
    assert RemoveTree(t, key) == t.(entries := Without(t.entries, i));
  }

  /** The child below the entry at `i` has become `d`, as it is read after the delete. */
  lemma BelowRep(flat: bool, s: Blobs, s': Blobs, m: Manifest, t: Manifest, i: nat, d: Manifest)
    requires Rep(flat, s, m, t) && ValidTree(t) && i < |t.entries| && t.entries[i].manifest.Some?
    requires var f := t.entries[i]; var c := Child(s, t.name, m.entries[i]);
      && c.Some? && SameOutside(s, s', t.name + f.name) && (t.name + f.name in s ==> t.name + f.name in s')
      && Rep(flat, s', Reread(s', c.value, m.entries[i].manifest.None?), d) && d.name == t.name + f.name
    ensures Rep(flat, s', m, t.(entries := t.entries[i := t.entries[i].(manifest := Some(d))]))
    ensures SameAt(s, s', t.name)
  {
    var e, f := m.entries[i], t.entries[i];
    assert ValidEntry(t.name, f) && RepEntry(flat, s, t.name, e, f);
    RepReplace(flat, s, s', t.name, m.entries, t.entries, i, f.name, e, f.(manifest := Some(d)));
    assert m.entries == m.entries[i := e];
  }

  /** A delete below a node: if the node that answers is read under its own name, the stored form
      then stands for the delete on the tree; if it is read from its parent's snapshot, for the tree
      that it stood for. */
  lemma {:induction false} RemoveBelow(flat: bool, s: Blobs, m: Manifest, t: Manifest, key: Str, own: bool)
    requires Rep(flat, s, m, t) && ValidTree(t) && (own ==> t.name in s && s[t.name] == m)
    requires Locate(s, m, key).Some?
    ensures flat && own ==> Owned(s, m, key, own)
    ensures var s' := Spliced(s, m, key);
      && SameOutside(s, s', t.name) && (t.name in s ==> t.name in s')
      && Rep(flat, s', Reread(s', m, own), if Owned(s, m, key, own) then RemoveTree(t, key) else t)
    decreases t
  {
    hide Slot, ScanSlot, ValidEntries, Find, Ordered;
    var i := ScanSlot(t.entries, key);
    RepIsAlike(flat, s, t.name, m.entries, t.entries);
    ScanSlotAlike(m.entries, t.entries, key);
    ScanSlotIsSlot(t.name, t.entries, key);
    var e, f, s' := m.entries[i], t.entries[i], Spliced(s, m, key);
    assert ValidEntry(t.name, f) && RepEntry(flat, s, t.name, e, f) by {
      EntryIsValid(t, i);
    }
    if f.etype.LeafEntry? {
      RemoveLeafRep(flat, s, s', m, t, i, key);
    } else {
      var c, d, k := Child(s, t.name, e).value, f.manifest.value, key[|f.name|..];
      assert Locate(s, m, key) == Locate(s, c, k);
      RemoveBelow(flat, s, c, d, k, e.manifest.None?);
      var d' := if Owned(s, c, k, e.manifest.None?) then RemoveTree(d, k) else d;
      BelowRep(flat, s, s', m, t, i, d');
      Outside(s, s', t.name, f.name);
      BelowTree(t, i, key);
    }
  }

  lemma BelowTree(t: Manifest, i: nat, key: Str)
    requires i < |t.entries| && i == Slot(t.entries, key) && t.entries[i].etype.IntermediateEntry?
    requires t.entries[i].manifest.Some? && t.entries[i].name <= key
    ensures var f := t.entries[i]; var d := RemoveTree(f.manifest.value, key[|f.name|..]);
      RemoveTree(t, key) == t.(entries := t.entries[i := f.(manifest := Some(d))])
    ensures t == t.(entries := t.entries[i := t.entries[i].(manifest := Some(t.entries[i].manifest.value))])
  {
    hide Slot;
  }

  /** A delete in a stored index of a valid tree; in a flat store it is always the delete on the
      tree. */
  lemma RemoveRep(flat: bool, s: Blobs, t: Manifest, key: Str)
    requires t.name in s && Rep(flat, s, s[t.name], t) && ValidTree(t) && Locate(s, s[t.name], key).Some?
    ensures flat ==> Owned(s, s[t.name], key, true)
    ensures var s' := Spliced(s, s[t.name], key);
      && t.name in s' && SameOutside(s, s', t.name)
      && Rep(flat, s', s'[t.name], if Owned(s, s[t.name], key, true) then RemoveTree(t, key) else t)
  {
    hide Rep, Owned, ValidEntries, SameOutside;
    RemoveBelow(flat, s, s[t.name], t, key, true);
    assert s[t.name].name == t.name by { NameOfRep(flat, s, s[t.name], t); }
  }

  lemma EntryIsValid(t: Manifest, i: nat)
    requires ValidTree(t) && i < |t.entries|
    ensures ValidEntry(t.name, t.entries[i])
  {
  }
}
