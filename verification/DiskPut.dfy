/** What one put does to one node, and which manifests it stores, on a store of any shape. */
module DiskPut {
  import opened Bytes
  import opened Tree
  import opened Insert
  import opened Storage
  import opened Steps

  /** A put at one node: it rewrites the node, with a new child if an entry splits, or goes on
      with the rest of the key below the branch at `i`. */
  datatype NodePut =
    | Rewrites(child: Option<Manifest>, node: Manifest)
    | Descends(i: nat, rest: Str)

  /** What is left of an entry below a split. Only in memory does a branch take its child along;
      on disk the child is found by name. */
  function SplitRest(e: Entry, suffix: Str, memory: bool): Entry {
    if memory then Rest(e, suffix) else Rest(e, suffix).(manifest := None)
  }

  function PutAt(m: Manifest, key: Str, value: Str, apnd: bool, memory: bool): NodePut {
    var i := Slot(m.entries, key);
    if key == [] || i == |m.entries| then
      Rewrites(None, m.(entries := AddSorted(m.entries, LeafOf(key, [value]))))
    else
      var e := m.entries[i];
      if e.etype.LeafEntry? && e.name == key then
        Rewrites(None, m.(entries := m.entries[i := e.(ref := (if apnd then e.ref else []) + [value])]))
      else
        var n := CommonLength(e.name, key);
        if e.etype.IntermediateEntry? && n == |e.name| then Descends(i, key[n..])
        else SplitAt(m, i, key[..n], e.name[n..], key[n..], value, memory)
  }

  function SplitAt(m: Manifest, i: nat, prefix: Str, suffix: Str, ks: Str, value: Str, memory: bool): NodePut
    requires i < |m.entries|
  {
    var e := m.entries[i];
    var child := Pair(m.name + prefix, LeafOf(ks, [value]), SplitRest(e, suffix, memory));
    var split := Entry(prefix, IntermediateEntry, e.ref, if memory then Some(child) else e.manifest);
    Rewrites(Some(child), m.(entries := m.entries[i := split]))
  }

  /** The manifests that an on-disk put stores, in order; none at all if a node on the way is not
      stored under its own name. Children are read by name, embedded or not. */
  function Writes(s: Blobs, m: Manifest, key: Str, value: Str, apnd: bool): Option<seq<Manifest>>
    decreases |key|
  {
    match PutAt(m, key, value, apnd, false)
    case Rewrites(None, node) => Some([node])
    case Rewrites(Some(child), node) => Some([child, node])
    case Descends(i, rest) =>
      PutAtDescends(m, key, value, apnd, false);
      var name := m.name + m.entries[i].name;
      if name in s then Writes(s, s[name], rest, value, apnd) else None
  }

  lemma PutAtDescends(m: Manifest, key: Str, value: Str, apnd: bool, memory: bool)
    requires PutAt(m, key, value, apnd, memory).Descends?
    ensures var i, rest := PutAt(m, key, value, apnd, memory).i, PutAt(m, key, value, apnd, memory).rest;
      && i == Slot(m.entries, key) && i < |m.entries| && m.entries[i].etype.IntermediateEntry?
      && m.entries[i].name != [] && m.entries[i].name <= key && rest == key[|m.entries[i].name|..] && |rest| < |key|
  {
    var e := m.entries[Slot(m.entries, key)];
    assert e.name[..|e.name|] == e.name;
  }

  /** The node itself after the put. */
  function Root(m: Manifest, key: Str, value: Str, apnd: bool): Manifest {
    var p := PutAt(m, key, value, apnd, false);
    if p.Rewrites? then p.node else m
  }

  function StoreAll(s: Blobs, ws: seq<Manifest>): Blobs
    decreases ws
  {
    if ws == [] then s else StoreAll(s[ws[0].name := ws[0]], ws[1..])
  }

  /** The writes stopped somewhere: some of the first ones are stored. */
  predicate Interrupted(s: Blobs, s': Blobs, ws: seq<Manifest>) {
    exists k :: 0 <= k < |ws| && s' == StoreAll(s, ws[..k])
  }

  lemma StoreOne(s: Blobs, w: Manifest)
    ensures StoreAll(s, [w]) == s[w.name := w]
  {
    assert [w][1..] == [];
  }

  lemma StoreTwo(s: Blobs, w: Manifest, v: Manifest)
    ensures StoreAll(s, [w, v]) == s[w.name := w][v.name := v]
    ensures forall s' :: Interrupted(s, s', [w, v]) <==> s' == s || s' == s[w.name := w]
  {
    assert [w, v][1..] == [v];
    StoreOne(s[w.name := w], v);
    assert [w, v][..0] == [] && [w, v][..1] == [w];
    StoreOne(s, w);
    forall s' | s' == s || s' == s[w.name := w] ensures Interrupted(s, s', [w, v]) {
      var k := if s' == s then 0 else 1;
      assert s' == StoreAll(s, [w, v][..k]);
    }
  }

  lemma NotInterrupted(s: Blobs, w: Manifest)
    ensures forall s' :: Interrupted(s, s', [w]) <==> s' == s
  {
    assert [w][..0] == [];
    assert s == StoreAll(s, [w][..0]);
  }

  lemma NodeName(m: Manifest, key: Str, value: Str, apnd: bool)
    requires PutAt(m, key, value, apnd, false).Rewrites?
    ensures PutAt(m, key, value, apnd, false).node.name == m.name
  {
  }

  /** The writes of a put that rewrites the node itself. */
  lemma WritesHere(s: Blobs, m: Manifest, key: Str, value: Str, apnd: bool)
    requires PutAt(m, key, value, apnd, false).Rewrites?
    ensures var p := PutAt(m, key, value, apnd, false); var ws := Writes(s, m, key, value, apnd);
      && ws.Some? && Root(m, key, value, apnd) == p.node && p.node.name == m.name
      && (p.child.None? ==> StoreAll(s, ws.value) == s[m.name := p.node])
      && (p.child.Some? ==> var s1 := s[p.child.value.name := p.child.value];
           StoreAll(s, ws.value) == s1[m.name := p.node] && Interrupted(s, s1, ws.value))
  {
    hide PutAt, StoreAll, Interrupted;
    var p := PutAt(m, key, value, apnd, false);
    NodeName(m, key, value, apnd);
    if p.child.Some? {
      StoreTwo(s, p.child.value, p.node);
    } else {
      StoreOne(s, p.node);
    }
  }

  /** All that a put that rewrites the node itself has to store is stored, but for the node. */
  predicate AlmostStored(s: Blobs, s': Blobs, m: Manifest, key: Str, value: Str, apnd: bool) {
    var p := PutAt(m, key, value, apnd, false);
    p.Rewrites? && s' == if p.child.Some? then s[p.child.value.name := p.child.value] else s
  }

  lemma EmptyIsRewritten(m: Manifest, key: Str, value: Str, apnd: bool)
    requires m.entries == []
    ensures Root(m, key, value, apnd) != m
  {
    NoDuplicate([], LeafOf(key, [value]));
    assert |AddSorted([], LeafOf(key, [value]))| == 1;
  }

  lemma SameDescent(m: Manifest, key: Str, value: Str, apnd: bool)
    ensures PutAt(m, key, value, apnd, true).Descends? ==>
      PutAt(m, key, value, apnd, true) == PutAt(m, key, value, apnd, false)
    ensures PutAt(m, key, value, apnd, false).Descends? ==>
      PutAt(m, key, value, apnd, true) == PutAt(m, key, value, apnd, false)
  {
  }

  /** The three parts that the common prefix splits two names into, in terms of its length. */
  lemma PrefixParts(name: Str, key: Str, prefix: Str, suffix: Str, ks: Str)
    requires name == prefix + suffix && key == prefix + ks && |prefix| == CommonLength(name, key)
    ensures var n := CommonLength(name, key);
      prefix == key[..n] && suffix == name[n..] && ks == key[n..] && (suffix == [] <==> n == |name|)
  {
  }

  // ----- In memory, this is the put on the loaded tree -----

  lemma PutAtInMemory(t: Manifest, key: Str, value: Str, apnd: bool)
    requires ValidTree(t)
    ensures var p := PutAt(t, key, value, apnd, true);
      && (p.Rewrites? ==> p.node == PutTree(t, key, value, apnd))
      && (p.Descends? ==>
           && p.i < |t.entries| && ValidEntry(t.name, t.entries[p.i]) && t.entries[p.i].manifest.Some?
           && PutTree(t, key, value, apnd) ==
              t.(entries := t.entries[p.i := Descended(t.entries[p.i], p.rest, value, apnd)]))
  {
    hide AddSorted, Slot;
    var i := Slot(t.entries, key);
    if key == [] || i == |t.entries| {
      PutNothing(t, key, value, apnd);
    } else {
      var e := t.entries[i];
      assert ValidEntry(t.name, e);
      TouchPut(t, i, key, value, apnd);
      var n := CommonLength(e.name, key);
      if e.etype.IntermediateEntry? && n == |e.name| {
        PutAtDescends(t, key, value, apnd, true);
        DescendPut(t, i, key, value, apnd);
      }
    }
  }

  // ----- On a flat store, it is that put on the tree that the store represents -----

  lemma SplitOnDisk(s: Blobs, m: Manifest, t: Manifest, key: Str, value: Str, apnd: bool)
    requires Rep(true, s, m, t) && ValidTree(t) && PutAt(m, key, value, apnd, false).Rewrites?
    requires PutAt(m, key, value, apnd, false).child.Some?
    ensures var p := PutAt(m, key, value, apnd, false); var c := p.child.value; var s1 := s[c.name := c];
      && Rep(true, s1, m, t) && Rep(true, s1, p.node, PutTree(t, key, value, apnd)) && t.name < c.name
  {
    hide Pair, AddSorted, Slot, ValidEntries;
    var i := Slot(t.entries, key);
    SlotOfAlike(true, s, m, t, key);
    var e, f := m.entries[i], t.entries[i];
    assert ValidEntry(t.name, f) && RepEntry(true, s, t.name, e, f) by {
      EntryPair(true, s, m, t, i);
    }
    var n := CommonLength(e.name, key);
    var prefix, suffix, ks := key[..n], e.name[n..], key[n..];
    assert e.name[..n] == prefix && e.name == prefix + suffix && key == prefix + ks;
    SplitRep(s, s[t.name + prefix := Pair(t.name + prefix, LeafOf(ks, [value]), Rest(e, suffix))],
             m, t, i, prefix, suffix, ks, value);
    SplitPut(t, i, prefix, suffix, ks, value, apnd);
    assert SplitRest(e, suffix, false) == Rest(e, suffix);
    PairName(t.name + prefix, LeafOf(ks, [value]), Rest(e, suffix));
  }

  lemma PairName(base: Str, a: Entry, b: Entry)
    ensures Pair(base, a, b).name == base
  {
  }

  lemma EntryPair(flat: bool, s: Blobs, m: Manifest, t: Manifest, i: nat)
    requires Rep(flat, s, m, t) && ValidTree(t) && i < |t.entries|
    ensures i < |m.entries| && RepEntry(flat, s, t.name, m.entries[i], t.entries[i]) && ValidEntry(t.name, t.entries[i])
  {
  }

  lemma SlotOfAlike(flat: bool, s: Blobs, m: Manifest, t: Manifest, key: Str)
    requires Rep(flat, s, m, t)
    ensures Slot(m.entries, key) == Slot(t.entries, key) && |m.entries| == |t.entries|
  {
    assert forall i :: 0 <= i < |t.entries| ==> m.entries[i].name == t.entries[i].name;
    SlotIsUnique(m.entries, key, Slot(t.entries, key));
  }

  /** The node rewritten without a new child. */
  lemma RewrittenOnDisk(s: Blobs, m: Manifest, t: Manifest, key: Str, value: Str, apnd: bool)
    requires Rep(true, s, m, t) && ValidTree(t) && PutAt(m, key, value, apnd, false).Rewrites?
    requires PutAt(m, key, value, apnd, false).child.None?
    ensures Rep(true, s, PutAt(m, key, value, apnd, false).node, PutTree(t, key, value, apnd))
  {
    hide AddSorted, Slot, ValidEntries;
    var i := Slot(t.entries, key);
    SlotOfAlike(true, s, m, t, key);
    if key == [] || i == |t.entries| {
      NewLeafRep(s, m, t, key, value, apnd);
    } else {
      EntryPair(true, s, m, t, i);
      UpdatePut(t, i, key, value, apnd);
    }
  }

  /** The writes of a put on a flat store: all of them make it represent the put on the tree, the
      first of them alone change nothing that it stands for. */
  lemma {:induction false} WritesRep(s: Blobs, m: Manifest, t: Manifest, key: Str, value: Str, apnd: bool)
    requires Rep(true, s, m, t) && ValidTree(t)
    ensures Writes(s, m, key, value, apnd).Some?
    ensures var s', m' := StoreAll(s, Writes(s, m, key, value, apnd).value), Root(m, key, value, apnd);
      && Rep(true, s', m', PutTree(t, key, value, apnd)) && SameOutside(s, s', t.name)
      && ((t.name in s' && s'[t.name] == m') || (m' == m && SameAt(s, s', t.name)))
    ensures forall s1 :: Interrupted(s, s1, Writes(s, m, key, value, apnd).value) ==> Unharmed(s, s1, m, t)
    decreases t
  {
    hide PutAt, RepEntry, ValidEntries;
    var p := PutAt(m, key, value, apnd, false);
    PutIsUpdate(t.name, t.entries, key, value, apnd, key);
    match p
    case Rewrites(None, node) =>
      RewrittenOnDisk(s, m, t, key, value, apnd);
      StoreOne(s, node);
      NotInterrupted(s, node);
      StoredAtRoot(s, s, s[node.name := node], node, PutTree(t, key, value, apnd));
    case Rewrites(Some(child), node) =>
      SplitOnDisk(s, m, t, key, value, apnd);
      StoreTwo(s, child, node);
      var s1 := s[child.name := child];
      assert SameOutside(s, s1, t.name) && SameAt(s, s1, t.name);
      StoredAtRoot(s, s1, s1[node.name := node], node, PutTree(t, key, value, apnd));
    case Descends(i, rest) =>
      DescendOnDisk(s, m, t, key, value, apnd);
  }

  /** What an interrupted put leaves of a node: what it stands for. */
  ghost predicate Unharmed(s: Blobs, s': Blobs, m: Manifest, t: Manifest) {
    Rep(true, s', m, t) && SameOutside(s, s', t.name) && SameAt(s, s', t.name)
  }

  lemma {:induction false} DescendOnDisk(s: Blobs, m: Manifest, t: Manifest, key: Str, value: Str, apnd: bool)
    requires Rep(true, s, m, t) && ValidTree(t) && PutAt(m, key, value, apnd, false).Descends?
    ensures Writes(s, m, key, value, apnd).Some?
    ensures var s' := StoreAll(s, Writes(s, m, key, value, apnd).value);
      Rep(true, s', m, PutTree(t, key, value, apnd)) && SameOutside(s, s', t.name) && SameAt(s, s', t.name)
    ensures forall s1 :: Interrupted(s, s1, Writes(s, m, key, value, apnd).value) ==> Unharmed(s, s1, m, t)
    decreases t, 0
  {
    hide PutAt, ValidEntries, Interrupted;
    PutAtDescends(m, key, value, apnd, false);
    SlotOfAlike(true, s, m, t, key);
    var i, rest := PutAt(m, key, value, apnd, false).i, PutAt(m, key, value, apnd, false).rest;
    EntryPair(true, s, m, t, i);
    var f := t.entries[i];
    var d, n := f.manifest.value, t.name + f.name;
    DescendPut(t, i, key, value, apnd);
    WritesRep(s, s[n], d, rest, value, apnd);
    var ws := Writes(s, s[n], rest, value, apnd).value;
    DescendedRep(s, StoreAll(s, ws), m, t, i, PutTree(d, rest, value, apnd));
    forall s1 | Interrupted(s, s1, ws) ensures Unharmed(s, s1, m, t) {
      assert Unharmed(s, s1, s[n], d);
      DescendedRep(s, s1, m, t, i, d);
      assert t.entries[i := f.(manifest := Some(d))] == t.entries;
    }
  }

  /** The rewritten node stands for the put on the tree even before it is stored. */
  lemma RootUnwritten(s: Blobs, m: Manifest, t: Manifest, key: Str, value: Str, apnd: bool)
    requires Rep(true, s, m, t) && ValidTree(t)
    ensures forall s' :: AlmostStored(s, s', m, key, value, apnd) ==>
      Rep(true, s', Root(m, key, value, apnd), PutTree(t, key, value, apnd))
    ensures ValidTree(PutTree(t, key, value, apnd))
  {
    hide PutAt, ValidEntries, RepEntry;
    PutIsUpdate(t.name, t.entries, key, value, apnd, key);
    var p := PutAt(m, key, value, apnd, false);
    if p.Rewrites? && p.child.Some? {
      SplitOnDisk(s, m, t, key, value, apnd);
    } else if p.Rewrites? {
      RewrittenOnDisk(s, m, t, key, value, apnd);
    }
  }
}
