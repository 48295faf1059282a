/** Where a put on disk lands, and what an index of any shape stands for after it. */
module Landings {
  import opened Bytes
  import opened Tree
  import opened Insert
  import opened Storage
  import opened Nodes
  import opened Steps
  import opened DiskPut
  import opened Flush
  import opened Merge
  import opened AfterFlush

  // ----- The node that a put rewrites -----

  /** The branch on the way of the key. */
  function OnWay(m: Manifest, key: Str): Option<Entry> {
    var i := Slot(m.entries, key);
    if key != [] && i < |m.entries| && m.entries[i].etype.IntermediateEntry? && m.entries[i].name <= key then Some(m.entries[i])
    else None
  }

  lemma OnWayIsNamed(m: Manifest, key: Str)
    ensures OnWay(m, key).Some? ==> OnWay(m, key).value.name != [] && OnWay(m, key).value.name <= key
  {
  }

  /** A put goes down by name, through every branch on the way of the key, embedded or not. It lands
      in a stored node with a rest of the key, or finds that a node is not there. */
  function Landing(s: Blobs, m: Manifest, key: Str): Option<(Manifest, Str)>
    decreases |key|
  {
    var e := OnWay(m, key);
    OnWayIsNamed(m, key);
    if e.None? then Some((m, key))
    else if m.name + e.value.name in s then Landing(s, s[m.name + e.value.name], key[|e.value.name|..])
    else None
  }

  /** It stores what a put into that node stores. */
  lemma {:induction false} WritesLand(s: Blobs, m: Manifest, key: Str, value: Str, apnd: bool)
    ensures match Landing(s, m, key)
      case None => Writes(s, m, key, value, apnd) == None
      case Some(landed) =>
        && PutAt(landed.0, landed.1, value, apnd, false).Rewrites?
        && Writes(s, m, key, value, apnd) == Writes(s, landed.0, landed.1, value, apnd)
        && Writes(s, m, key, value, apnd).Some?
        && (landed.0 == m || landed.0 in s.Values)
    decreases |key|
  {
    hide AddSorted, Slot, PutAt;
    OnWayDescends(m, key, value, apnd);
    OnWayIsNamed(m, key);
    var e := OnWay(m, key);
    if e.Some? {
      var n := m.name + e.value.name;
      if n in s {
        WritesLand(s, s[n], key[|e.value.name|..], value, apnd);
      }
    } else {
      WritesHere(s, m, key, value, apnd);
    }
  }

  lemma OnWayDescends(m: Manifest, key: Str, value: Str, apnd: bool)
    ensures OnWay(m, key).None? <==> PutAt(m, key, value, apnd, false).Rewrites?
    ensures OnWay(m, key).Some? ==> var e, i := OnWay(m, key).value, Slot(m.entries, key);
      i < |m.entries| && e == m.entries[i] && PutAt(m, key, value, apnd, false) == Descends(i, key[|e.name|..])
  {
    hide AddSorted, Pair;
    var e, i := OnWay(m, key), Slot(m.entries, key);
    if e.Some? {
      CommonLengthIsUnique(e.value.name, key, |e.value.name|);
    } else if key != [] && i < |m.entries| {
      assert m.entries[i].name[..|m.entries[i].name|] == m.entries[i].name;
    }
  }

  // ----- A put that lookups follow -----

  /** Lookups go the same way as the put: every branch on the way of the key is by name, and so is
      the entry that it splits. */
  predicate Follows(s: Blobs, m: Manifest, key: Str)
    decreases |key|
  {
    var e, i := OnWay(m, key), Slot(m.entries, key);
    OnWayIsNamed(m, key);
    if e.None? then key == [] || i == |m.entries| || m.entries[i].manifest.None?
    else
      && e.value.manifest.None? && m.name + e.value.name in s
      && Follows(s, s[m.name + e.value.name], key[|e.value.name|..])
  }

  /** Then the put goes through, and the store stands for the put on the tree. */
  lemma {:induction false} FollowedPut(s: Blobs, t: Manifest, key: Str, value: Str, apnd: bool)
    requires t.name in s && Rep(false, s, s[t.name], t) && ValidTree(t) && Follows(s, s[t.name], key)
    ensures Writes(s, s[t.name], key, value, apnd).Some?
    ensures var s' := StoreAll(s, Writes(s, s[t.name], key, value, apnd).value);
      && t.name in s' && SameOutside(s, s', t.name) && Rep(false, s', s'[t.name], PutTree(t, key, value, apnd))
    decreases t
  {
    hide AddSorted, Slot, PutAt, Rep, ValidEntries, Reads, Insert.Put;
    var m := s[t.name];
    OnWayDescends(m, key, value, apnd);
    OnWayIsNamed(m, key);
    var i := Slot(m.entries, key);
    if OnWay(m, key).None? {
      LandedHere(s, t, key, value, apnd);
    } else {
      SlotOfAlike(false, s, m, t, key);
      EntryPair(false, s, m, t, i);
      var f, k := t.entries[i], key[|t.entries[i].name|..];
      var d, n := f.manifest.value, t.name + f.name;
      assert m.name == t.name by { NameOfRep(false, s, m, t); }
      ChildIs(s, t.name, m.entries[i], f);
      FollowedPut(s, d, k, value, apnd);
      DescendPut(t, i, key, value, apnd);
      var s' := StoreAll(s, Writes(s, m, key, value, apnd).value);
      SeenAbove(s, s', m, t, i, PutTree(d, k, value, apnd));
      Outside(s, s', t.name, f.name);
    }
  }

  lemma ChildIs(s: Blobs, base: Str, e: Entry, f: Entry)
    requires RepEntry(false, s, base, e, f) && ValidEntry(base, f) && f.etype.IntermediateEntry? && e.manifest.None?
    ensures f.manifest.Some? && base + f.name in s && ValidTree(f.manifest.value) && f.manifest.value.name == base + f.name
    ensures Rep(false, s, s[base + f.name], f.manifest.value)
    ensures e.name == f.name && e.etype == f.etype
  {
  }

  /** In a flat store they always go that way. */
  lemma {:induction false} FlatFollows(s: Blobs, m: Manifest, t: Manifest, key: Str)
    requires Rep(true, s, m, t) && ValidTree(t)
    ensures Follows(s, m, key)
    decreases t
  {
    hide Slot, ValidEntries;
    SlotOfAlike(true, s, m, t, key);
    OnWayIsNamed(m, key);
    var i := Slot(m.entries, key);
    if i < |m.entries| {
      EntryPair(true, s, m, t, i);
      var f := t.entries[i];
      assert m.entries[i].manifest.None?;
      if OnWay(m, key).Some? {
        assert t.name + f.name in s;
        FlatFollows(s, s[t.name + f.name], f.manifest.value, key[|f.name|..]);
      }
    }
  }

  /** At the node itself. */
  lemma LandedHere(s: Blobs, t: Manifest, key: Str, value: Str, apnd: bool)
    requires t.name in s && Rep(false, s, s[t.name], t) && ValidTree(t)
    requires PutAt(s[t.name], key, value, apnd, false).Rewrites?
    requires var m := s[t.name]; var i := Slot(m.entries, key); key == [] || i == |m.entries| || m.entries[i].manifest.None?
    ensures Writes(s, s[t.name], key, value, apnd).Some?
    ensures var s' := StoreAll(s, Writes(s, s[t.name], key, value, apnd).value);
      && t.name in s' && SameOutside(s, s', t.name) && Rep(false, s', s'[t.name], PutTree(t, key, value, apnd))
  {
    hide Rep, ValidEntries, Reads, AddSorted, Slot, Pair;
    var m := s[t.name];
    var p := PutAt(m, key, value, apnd, false);
    ValidIsMixed(t.name, t.entries);
    NameOfRep(false, s, m, t);
    WritesHere(s, m, key, value, apnd);
    if p.child.Some? {
      NewNodeIsUnread(s, m, t, key, value, apnd);
      SplitChildName(m, key, value, apnd);
      forall n | !(t.name <= n) ensures SameAt(s, StoreAll(s, Writes(s, m, key, value, apnd).value), n) {
        LongerPrefix(t.name, p.child.value.name, n);
      }
    }
    PutAtRootIsSeen(s, t, key, value, apnd);
  }

  // ----- A put into an index of any shape -----

  /** The put lands below the root of `t`, in the node `c` with the rest `k` of the key; it stands for
      `u`, and the entry that is split is by name, if one is. */
  predicate LandsBelow(s: Blobs, t: Manifest, key: Str, c: Manifest, k: Str, u: Manifest) {
    && t.name in s && Rep(false, s, s[t.name], t) && MixedTree(t) && Landing(s, s[t.name], key) == Some((c, k))
    && t.name < c.name && c.name in s && s[c.name] == c && Rep(false, s, c, u) && ValidTree(u)
    && var i := Slot(c.entries, k); k == [] || i == |c.entries| || c.entries[i].manifest.None?
  }

  /** Then the root stands for the tree in which the node with the new value stands wherever its name
      is read; also where roots were merged, and where lookups do not go the way of the put. */
  lemma LandedPut(s: Blobs, t: Manifest, key: Str, value: Str, apnd: bool, c: Manifest, k: Str, u: Manifest)
    requires LandsBelow(s, t, key, c, k, u)
    ensures Writes(s, s[t.name], key, value, apnd).Some?
    ensures var s' := StoreAll(s, Writes(s, s[t.name], key, value, apnd).value);
      var g := Grafted(s, s', [PutTree(u, k, value, apnd)], s[t.name], t);
      && t.name in s' && s'[t.name] == s[t.name] && Rep(false, s', s'[t.name], g) && MixedTree(g) && g.name == t.name
      && c.name in s' && Rep(false, s', s'[c.name], PutTree(u, k, value, apnd))
  {
    hide Rep, ValidEntries, Slot, PutAt, Grafted, Insert.Put, MixedEntries, Landing, StackAt;
    var m := s[t.name];
    WritesLand(s, m, key, value, apnd);
    NameOfRep(false, s, c, u);
    LandedHere(s, u, k, value, apnd);
    var s', u' := StoreAll(s, Writes(s, m, key, value, apnd).value), PutTree(u, k, value, apnd);
    PutIsUpdate(u.name, u.entries, k, value, apnd, k);
    forall n | n != t.name ensures SameAt(s, s', n) || SavedNode(s', StackAt([u'], n), n) {
      if !SameAt(s, s', n) {
        LandedNodes(s, u, k, value, apnd, n);
        OnlyTree(u', n);
      }
    }
    assert SameAt(s, s', t.name) by { assert !(u.name <= t.name); }
    GraftedRoot(s, s', [u'], m, t);
    GraftedName(s, s', [u'], m, t);
  }

  lemma OnlyTree(u: Manifest, n: Str)
    ensures StackAt([u], n) == NodeAt(u, n)
  {
  }

  /** All that such a put stores is a node of the tree after it. */
  lemma LandedNodes(s: Blobs, u: Manifest, k: Str, value: Str, apnd: bool, n: Str)
    requires u.name in s && Rep(false, s, s[u.name], u) && ValidTree(u)
    requires PutAt(s[u.name], k, value, apnd, false).Rewrites? && Writes(s, s[u.name], k, value, apnd).Some?
    requires var c := s[u.name]; var i := Slot(c.entries, k); k == [] || i == |c.entries| || c.entries[i].manifest.None?
    requires ValidTree(PutTree(u, k, value, apnd))
    requires var s' := StoreAll(s, Writes(s, s[u.name], k, value, apnd).value);
      !SameAt(s, s', n) && u.name in s' && Rep(false, s', s'[u.name], PutTree(u, k, value, apnd))
    ensures SavedNode(StoreAll(s, Writes(s, s[u.name], k, value, apnd).value), NodeAt(PutTree(u, k, value, apnd), n), n)
  {
    hide Rep, ValidEntries, Slot, PutAt, Insert.Put;
    var c := s[u.name];
    var s', u', p := StoreAll(s, Writes(s, c, k, value, apnd).value), PutTree(u, k, value, apnd), PutAt(c, k, value, apnd, false);
    NameOfRep(false, s, c, u);
    WritesHere(s, c, k, value, apnd);
    if n != u.name {
      assert p.child.Some? && n == p.child.value.name;
      SplitChildName(c, k, value, apnd);
      var i := SplitSlot(c, k, value, apnd);
      SlotOfAlike(false, s', s'[u.name], u', k);
      EntryPair(false, s', s'[u.name], u', i);
      ChildIs(s', u.name, p.node.entries[i], u'.entries[i]);
      NodeOfBranch(u', i, n);
    }
  }

  lemma SplitSlot(c: Manifest, k: Str, value: Str, apnd: bool) returns (i: nat)
    requires PutAt(c, k, value, apnd, false).Rewrites? && PutAt(c, k, value, apnd, false).child.Some?
    requires var i := Slot(c.entries, k); k == [] || i == |c.entries| || c.entries[i].manifest.None?
    ensures var p := PutAt(c, k, value, apnd, false);
      && i < |p.node.entries| && p.node.entries[i].etype.IntermediateEntry? && p.node.entries[i].manifest.None?
      && p.child.value.name == c.name + p.node.entries[i].name
  {
    hide AddSorted, Pair;
    i := Slot(c.entries, k);
    var n := CommonLength(c.entries[i].name, k);
    PairName(c.name + k[..n], LeafOf(k[n..], [value]), SplitRest(c.entries[i], c.entries[i].name[n..], false));
  }
}
