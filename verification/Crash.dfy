/** Stores that were left between two writes, and stores that several indexes share. */
module Crash {
  import opened Bytes
  import opened Tree
  import opened Insert
  import opened Storage
  import opened Nodes
  import opened Remove
  import opened DiskPut

  // ----- The answers of a stored form -----

  /** Lookup finds the key in both stored forms, and the same leaf, or in neither. */
  predicate SameAnswer(s: Blobs, s': Blobs, m: Manifest, m': Manifest, key: Str) {
    match (Locate(s, m, key), Locate(s', m', key))
    case (None, None) => true
    case (Some((a, i)), Some((b, j))) => i < |a.entries| && j < |b.entries| && a.entries[i] == b.entries[j]
    case _ => false
  }

  /** Two stored forms of one tree answer alike. */
  lemma SameAnswers(s: Blobs, s': Blobs, m: Manifest, m': Manifest, t: Manifest, key: Str)
    requires Rep(false, s, m, t) && Rep(false, s', m', t) && MixedTree(t)
    ensures SameAnswer(s, s', m, m', key)
  {
    LocateIsScan(s, m, t, key);
    LocateIsScan(s', m', t, key);
  }

  // ----- The state after a crash -----

  /** The name of the node that putting `key` makes somewhere below, if it splits an entry. */
  function SplitName(base: Str, es: seq<Entry>, key: Str): Option<Str>
    decreases es
  {
    var i := Slot(es, key);
    if key == [] || i == |es| || (es[i].etype.LeafEntry? && es[i].name == key) then None
    else
      var e := es[i];
      var n := CommonLength(e.name, key);
      if e.etype.IntermediateEntry? && n == |e.name| && e.manifest.Some? then
        SplitName(base + e.name, e.manifest.value.entries, key[n..])
      else Some(base + key[..n])
  }

  /** Where the split entry is, and how its name splits. */
  lemma SplitPoint(base: Str, es: seq<Entry>, key: Str)
    requires ValidEntries(base, es) && SplitName(base, es, key).Some?
    ensures key != []
    ensures Slot(es, key) < |es|
    ensures var e := es[Slot(es, key)]; var n := CommonLength(e.name, key);
      && n > 0 && e.name[..n] == key[..n] && ValidEntry(base, e) && Head(e.name) == Head(key)
      && (if e.etype.IntermediateEntry? && n == |e.name| then
            && e.name == key[..n] && e.manifest.value.name == base + e.name
            && SplitName(base, es, key) == SplitName(base + e.name, e.manifest.value.entries, key[n..])
          else
            && SplitName(base, es, key) == Some(base + key[..n]) && e.name == key[..n] + e.name[n..]
            && (e.etype.IntermediateEntry? ==> e.name[n..] != []))
  {
    var i := Slot(es, key);
    assert ValidEntry(base, es[i]);
  }

  /** The new node's name starts with the node's own and the key's first byte. */
  lemma {:induction false} SplitNameStarts(base: Str, es: seq<Entry>, key: Str)
    requires ValidEntries(base, es) && SplitName(base, es, key).Some?
    ensures base + key[..1] <= SplitName(base, es, key).value
    decreases es
  {
    hide Slot, CommonLength, ValidEntry, ValidEntries;
    SplitPoint(base, es, key);
    var e := es[Slot(es, key)];
    var n := CommonLength(e.name, key);
    assert key[..n][..1] == key[..1];
    assert base + key[..n] == base + key[..1] + key[..n][1..];
    if e.etype.IntermediateEntry? && n == |e.name| {
      SplitNameStarts(base + e.name, e.manifest.value.entries, key[n..]);
      var name := SplitName(base, es, key).value;
      PrefixTransitive(base + e.name, key[n..][..1], name);
      assert name[..|base| + 1] == (base + e.name)[..|base| + 1] == base + key[..1];
    }
  }

  /** The child that a put stores first has the name of no node that can be reached yet. */
  lemma {:induction false} SplitNameIsNew(base: Str, es: seq<Entry>, key: Str)
    requires ValidEntries(base, es) && SplitName(base, es, key).Some?
    ensures !Reaches(es, SplitName(base, es, key).value) && SplitName(base, es, key).value != base
    decreases es
  {
    SplitPoint(base, es, key);
    SplitNameStarts(base, es, key);
    var i, name := Slot(es, key), SplitName(base, es, key).value;
    var e := es[i];
    if Reaches(es, name) {
      var j :| 0 <= j < |es| && es[j].manifest.Some? &&
        (es[j].manifest.value.name == name || Reaches(es[j].manifest.value.entries, name));
      assert ValidEntry(base, es[j]);
      NodeStarts(base, es[j], name);
      if j != i {
        assert Head(es[j].name) != Head(key);
        ApartByHead(base, es[j].name, key[..1]);
      } else if CommonLength(e.name, key) == |e.name| {
        SplitNameIsNew(base + e.name, e.manifest.value.entries, key[|e.name|..]);
      }
    }
  }

  /** A put on a flat store makes two writes exactly if it splits an entry, and the first of them is
      the new child's. */
  lemma {:induction false} FirstWriteIsChild(s: Blobs, m: Manifest, t: Manifest, key: Str, value: Str, apnd: bool)
    requires Rep(true, s, m, t) && ValidTree(t)
    ensures var ws, n := Writes(s, m, key, value, apnd), SplitName(t.name, t.entries, key);
      && ws.Some? && |ws.value| == (if n.Some? then 2 else 1)
      && (n.Some? ==> ws.value[0].name == n.value)
    decreases t
  {
    hide Slot, AddSorted, Pair;
    SlotOfRep(true, s, m, t, key);
    var i, p := Slot(t.entries, key), PutAt(m, key, value, apnd, false);
    if i < |t.entries| {
      EntryPair(true, s, m, t, i);
      var f := t.entries[i];
      if p.Descends? {
        PutAtDescends(m, key, value, apnd, false);
        FirstWriteIsChild(s, s[t.name + f.name], f.manifest.value, p.rest, value, apnd);
      } else if p.child.Some? {
        var n := CommonLength(f.name, key);
        PairName(t.name + key[..n], LeafOf(key[n..], [value]), SplitRest(m.entries[i], f.name[n..], false));
      }
    }
  }

  /** A put that stops between its two writes, at whatever depth: the new child is stored, the
      node above it is not. The stored root is the one it was and stands for the same tree, so
      that every lookup answers as before and the put may be tried again. */
  lemma CrashBetweenWrites(s: Blobs, s': Blobs, t: Manifest, put: Str, value: Str, apnd: bool, key: Str)
    requires t.name in s && Rep(true, s, s[t.name], t) && ValidTree(t)
    requires Writes(s, s[t.name], put, value, apnd).Some? && Interrupted(s, s', Writes(s, s[t.name], put, value, apnd).value)
    ensures t.name in s' && s'[t.name] == s[t.name] && Rep(true, s', s'[t.name], t)
    ensures SameAnswer(s, s', s[t.name], s'[t.name], key)
  {
    WritesRep(s, s[t.name], t, put, value, apnd);
    assert Unharmed(s, s', s[t.name], t);
    FlatIsRepTree(s, s[t.name], t);
    FlatIsRepTree(s', s[t.name], t);
    ValidIsMixed(t.name, t.entries);
    SameAnswers(s, s', s[t.name], s[t.name], t, key);
  }

  /** After the put has gone through, the new node can be reached under that name. */
  lemma {:induction false} SplitNameIsReached(base: Str, es: seq<Entry>, key: Str, value: Str, apnd: bool)
    requires ValidEntries(base, es) && SplitName(base, es, key).Some?
    ensures Reaches(Put(base, es, key, value, apnd), SplitName(base, es, key).value)
    decreases es
  {
    SplitPoint(base, es, key);
    var i := Slot(es, key);
    var e, e' := es[i], Touch(base, es[i], key, value, apnd);
    var n := CommonLength(e.name, key);
    assert Put(base, es, key, value, apnd)[i] == e';
    if e.etype.IntermediateEntry? && n == |e.name| {
      SplitNameIsReached(base + e.name, e.manifest.value.entries, key[n..], value, apnd);
      assert Reaches(e'.manifest.value.entries, SplitName(base, es, key).value);
    } else {
      assert e' == Split(base, e, n, key, value);
      assert e'.manifest.value.name == base + key[..n];
    }
  }

  // ----- Several indexes on one feed -----

  /** Two indexes of which neither name starts the other do not disturb each other. */
  lemma ApartIndexesAreIndependent(flat: bool, s: Blobs, s': Blobs, other: Str, t: Manifest)
    requires Apart(t.name, other) && ValidTree(t) && t.name in s && Rep(flat, s, s[t.name], t)
    requires SameOutside(s, s', other)
    ensures t.name in s' && Rep(flat, s', s'[t.name], t)
  {
    forall n | t.name <= n ensures SameAt(s, s', n) {
      PrefixesAreNested(t.name, other, n);
    }
    assert t.name <= t.name && SameAt(s, s', t.name);
    RepFrameTree(flat, s, s', s[t.name], t);
  }
}
