/** What a delete leaves in a stored index of any shape: also where roots were merged, and where a
    node is embedded in its parent's snapshot and stored under its own name as well. */
module Deleting {
  import opened Bytes
  import opened Tree
  import opened Storage
  import opened Nodes
  import opened Remove
  import opened Flush
  import opened Merge

  // ----- The node that answers -----

  /** The stored node that answers for `key` stands for the node of the loaded tree that does, and
      the path of its leaf is the key. */
  lemma {:induction false} LocateInTree(s: Blobs, m: Manifest, t: Manifest, key: Str)
    requires Rep(false, s, m, t) && MixedTree(t)
    ensures Locate(s, m, key).Some? <==> Locate(map[], t, key).Some?
    ensures Locate(s, m, key).Some? ==>
      var ((fm, i), (d, j)) := (Locate(s, m, key).value, Locate(map[], t, key).value);
      && i == j && i < |d.entries| && Rep(false, s, fm, d) && MixedTree(d)
      && d.entries[i].etype.LeafEntry? && d.entries[i].manifest.None? && d.name + d.entries[i].name == t.name + key
      && ((fm == m && d == t) || (ValidTree(d) && t.name < d.name))
    decreases t
  {
    hide ScanSlot, ValidEntries, Ordered;
    var i := ScanSlot(t.entries, key);
    RepIsAlike(false, s, t.name, m.entries, t.entries);
    ScanSlotAlike(m.entries, t.entries, key);
    if i < |t.entries| && Takes(t.entries[i], key) {
      var e, f := m.entries[i], t.entries[i];
      assert ValidEntry(t.name, f) && RepEntry(false, s, t.name, e, f);
      if f.etype.IntermediateEntry? {
        var c, d, k := Child(s, t.name, e).value, f.manifest.value, key[|f.name|..];
        ValidIsMixed(d.name, d.entries);
        LocateInTree(s, c, d, k);
        assert Locate(s, m, key) == Locate(s, c, k);
        assert Locate(map[], t, key) == Locate(map[], d, k);
        assert t.name + f.name + k == t.name + key;
        if Locate(s, c, k).Some? {
          assert t.name < d.name <= Locate(map[], d, k).value.0.name;
        }
      }
    }
  }

  /** A node that is read under its own name is stored under it. */
  lemma {:induction false} OwnedIsStored(s: Blobs, m: Manifest, t: Manifest, key: Str, own: bool)
    requires Rep(false, s, m, t) && MixedTree(t) && (own ==> t.name in s && s[t.name] == m)
    requires Owned(s, m, key, own)
    ensures Locate(s, m, key).Some? && var fm := Locate(s, m, key).value.0; fm.name in s && s[fm.name] == fm
    decreases t
  {
    hide ScanSlot, ValidEntries, Ordered;
    var i := ScanSlot(t.entries, key);
    RepIsAlike(false, s, t.name, m.entries, t.entries);
    ScanSlotAlike(m.entries, t.entries, key);
    var e, f := m.entries[i], t.entries[i];
    assert ValidEntry(t.name, f) && RepEntry(false, s, t.name, e, f);
    if f.etype.IntermediateEntry? {
      var c, d, k := Child(s, t.name, e).value, f.manifest.value, key[|f.name|..];
      ValidIsMixed(d.name, d.entries);
      OwnedIsStored(s, c, d, k, e.manifest.None?);
      assert Locate(s, m, key) == Locate(s, c, k);
    }
  }

  // ----- The tree after a delete -----

  /** The node that answers in the tree, without the leaf. */
  function Shrunk(t: Manifest, key: Str): Manifest {
    var found := Locate(map[], t, key);
    if found.Some? && found.value.1 < |found.value.0.entries| then
      found.value.0.(entries := Without(found.value.0.entries, found.value.1))
    else t
  }

  /** The tree after the delete: the node without its leaf stands wherever its name is read. */
  ghost function AfterDelete(s: Blobs, m: Manifest, t: Manifest, key: Str): Manifest {
    if Shrunk(t, key).name == t.name then Shrunk(t, key)
    else Grafted(s, Spliced(s, m, key), [Shrunk(t, key)], m, t)
  }

  lemma WithoutIsMixed(base: Str, es: seq<Entry>, i: nat)
    requires MixedEntries(base, es) && i < |es|
    ensures MixedEntries(base, Without(es, i))
  {
    hide ValidEntry;
    var r := Without(es, i);
    assert forall j :: 0 <= j < |r| ==> r[j] == es[if j < i then j else j + 1];
  }

  lemma WithoutRep(s: Blobs, base: Str, es: seq<Entry>, fs: seq<Entry>, i: nat)
    requires RepEntries(false, s, base, es, fs) && i < |fs|
    ensures RepEntries(false, s, base, Without(es, i), Without(fs, i))
  {
    hide RepEntry;
    var r, q := Without(es, i), Without(fs, i);
    assert forall j :: 0 <= j < |q| ==> var k := if j < i then j else j + 1; r[j] == es[k] && q[j] == fs[k];
  }

  /** A mixed tree, too, depends on names strictly longer than its own. */
  lemma MixedFrame(s: Blobs, s': Blobs, m: Manifest, t: Manifest)
    requires Rep(false, s, m, t) && MixedTree(t)
    requires forall n :: t.name <= n && n != t.name ==> SameAt(s, s', n)
    ensures Rep(false, s', m, t)
  {
    forall i | 0 <= i < |t.entries| ensures RepEntry(false, s', t.name, m.entries[i], t.entries[i]) {
      var f := t.entries[i];
      assert ValidEntry(t.name, f);
      if f.manifest.Some? {
        forall n | t.name + f.name <= n ensures SameAt(s, s', n) {
          assert t.name == n[..|t.name|];
        }
        RepFrame(false, s, s', t.name, m.entries[i], f);
      }
    }
  }

  /** Whatever is read elsewhere: under its name, the node is stored without the leaf. */
  lemma ShrunkIsStored(s: Blobs, m: Manifest, t: Manifest, key: Str)
    requires Rep(false, s, m, t) && MixedTree(t) && Locate(s, m, key).Some?
    ensures var (s', d) := (Spliced(s, m, key), Shrunk(t, key));
      && d.name == Locate(s, m, key).value.0.name && d.name in s' && Rep(false, s', s'[d.name], d)
      && (d.name == t.name || (ValidTree(d) && t.name < d.name)) && MixedTree(d)
      && forall n :: n != d.name ==> SameAt(s, s', n)
  {
    hide Rep, ValidEntry;
    LocateInTree(s, m, t, key);
    var (fm, i) := Locate(s, m, key).value;
    var d := Locate(map[], t, key).value.0;
    var s' := Spliced(s, m, key);
    SplicedIs(s, m, key, fm, d, i);
    MixedFrame(s, s', fm, d);
    WithoutRepTree(s', fm, d, i);
    WithoutIsMixed(d.name, d.entries, i);
    if ValidTree(d) {
      WithoutIsValid(d.name, d.entries, i);
    }
  }

  lemma SplicedIs(s: Blobs, m: Manifest, key: Str, fm: Manifest, d: Manifest, i: nat)
    requires Locate(s, m, key) == Some((fm, i)) && Rep(false, s, fm, d) && i < |d.entries|
    ensures i < |fm.entries| && d.name == fm.name
    ensures Spliced(s, m, key) == s[fm.name := fm.(entries := Without(fm.entries, i))]
  {
  }

  lemma WithoutRepTree(s: Blobs, m: Manifest, t: Manifest, i: nat)
    requires Rep(false, s, m, t) && i < |t.entries|
    ensures Rep(false, s, m.(entries := Without(m.entries, i)), t.(entries := Without(t.entries, i)))
  {
    WithoutRep(s, t.name, m.entries, t.entries, i);
  }

  /** After a delete the stored root stands for that tree, in an index of any shape. */
  lemma DeletedRep(s: Blobs, t: Manifest, key: Str)
    requires t.name in s && Rep(false, s, s[t.name], t) && MixedTree(t) && Locate(s, s[t.name], key).Some?
    ensures var (s', u) := (Spliced(s, s[t.name], key), AfterDelete(s, s[t.name], t, key));
      && t.name in s' && Rep(false, s', s'[t.name], u) && MixedTree(u) && u.name == t.name && SameOutside(s, s', t.name)
  {
    hide Rep, Shrunk, Spliced, MixedEntries, ValidEntries, Locate, Grafted;
    var m := s[t.name];
    var s', d := Spliced(s, m, key), Shrunk(t, key);
    ShrunkIsStored(s, m, t, key);
    assert SameAt(s, s', t.name) || d.name == t.name;
    if d.name != t.name {
      forall n | n != t.name ensures SameAt(s, s', n) || SavedNode(s', StackAt([d], n), n) {
        if n == d.name {
          assert NodeAt(d, n) == Some(d) && [d][0] == d;
        }
      }
      GraftedRoot(s, s', [d], m, t);
      GraftedName(s, s', [d], m, t);
    }
  }

  // ----- What lookups answer after a delete -----

  lemma ScanWithout(base: Str, es: seq<Entry>, i: nat, k: Str)
    requires MixedEntries(base, es) && i < |es| && es[i].etype.LeafEntry? && es[i].name != k
    ensures Scan(Without(es, i), k) == Scan(es, k)
  {
    hide ValidEntry, MixedEntries, Scan, EntryScan;
    var r := Without(es, i);
    assert forall j :: 0 <= j < |r| ==> r[j] == es[if j < i then j else j + 1];
    WithoutIsMixed(base, es, i);
    var j := First(es, k, 0);
    FirstTaker(base, es, k, j);
    FirstTaker(base, r, k, if j < i then j else j - 1);
    ScanIsTaker(es, k);
    ScanIsTaker(r, k);
  }

  /** The first entry that takes the key. */
  function First(es: seq<Entry>, k: Str, from: nat): (i: nat)
    requires from <= |es|
    ensures from <= i <= |es| && (i < |es| ==> Takes(es[i], k))
    ensures forall j :: from <= j < i ==> !Takes(es[j], k)
    decreases |es| - from
  {
    if from == |es| || Takes(es[from], k) then from else First(es, k, from + 1)
  }

  /** Only the node under the name `n`, which stands for `d`, has lost its leaf at `i`. */
  ghost predicate Lost(s: Blobs, s': Blobs, d: Manifest, i: nat) {
    && ValidTree(d) && i < |d.entries| && d.entries[i].etype.LeafEntry?
    && d.name in s && Rep(false, s, s[d.name], d) && !SameAt(s, s', d.name)
    && forall n :: n != d.name ==> SameAt(s, s', n)
  }

  lemma {:induction false} GraftedScan(s: Blobs, s': Blobs, d: Manifest, i: nat, base: Str, es: seq<Entry>, fs: seq<Entry>, k: Str)
    requires i < |d.entries| && Lost(s, s', d, i) && RepEntries(false, s, base, es, fs) && MixedEntries(base, fs)
    requires base + k != d.name + d.entries[i].name
    ensures Scan(GraftedEntries(s, s', [d.(entries := Without(d.entries, i))], base, es, fs), k) == Scan(fs, k)
    decreases fs
  {
    hide ScanSlot, ValidEntries, RepEntry, ValidEntry, Lost, GraftedEntries, GraftedEntry, Scan, EntryScan, Without, Takes;
    var d' := d.(entries := Without(d.entries, i));
    var gs := GraftedEntries(s, s', [d'], base, es, fs);
    GraftedAlike(s, s', [d'], base, es, fs);
    ScanSlotAlike(gs, fs, k);
    ScanFrom(fs, k);
    ScanFrom(gs, k);
    var j := ScanSlot(fs, k);
    if j < |fs| && Takes(fs[j], k) {
      assert ValidEntry(base, fs[j]) && RepEntry(false, s, base, es[j], fs[j]);
      GraftedEntryScan(s, s', d, i, base, es[j], fs[j], k);
    } else if j < |fs| {
      assert !Takes(gs[j], k) by { SameTaken(gs[j], fs[j], k); }
    }
  }

  lemma SameTaken(e: Entry, f: Entry, k: Str)
    requires e.name == f.name && e.etype == f.etype
    ensures Takes(e, k) == Takes(f, k)
  {
  }

  lemma ScanFrom(es: seq<Entry>, k: Str)
    ensures var j := ScanSlot(es, k); Scan(es, k) == if j < |es| && Takes(es[j], k) then EntryScan(es[j], k) else None
  {
  }

  lemma GraftedAlike(s: Blobs, s': Blobs, kids: seq<Manifest>, base: Str, es: seq<Entry>, fs: seq<Entry>)
    requires |es| == |fs|
    ensures var gs := GraftedEntries(s, s', kids, base, es, fs);
      Alike(gs, fs) && forall i :: 0 <= i < |fs| ==> gs[i] == GraftedEntry(s, s', kids, base, es[i], fs[i])
  {
    GraftedAt(s, s', kids, base, es, fs);
  }

  lemma {:induction false} GraftedEntryScan(s: Blobs, s': Blobs, d: Manifest, i: nat, base: Str, e: Entry, f: Entry, k: Str)
    requires i < |d.entries| && Lost(s, s', d, i) && RepEntry(false, s, base, e, f) && ValidEntry(base, f) && Takes(f, k)
    requires base + k != d.name + d.entries[i].name
    ensures var g := GraftedEntry(s, s', [d.(entries := Without(d.entries, i))], base, e, f);
      Takes(g, k) && EntryScan(g, k) == EntryScan(f, k)
    decreases f, 0
  {
    hide ScanSlot, ValidEntries, Without, Scan, Ordered;
    if f.manifest.Some? {
      var c, n, k' := f.manifest.value, base + f.name, k[|f.name|..];
      assert base + k == n + k';
      ValidIsMixed(c.name, c.entries);
      ReplacedIs(s, s', d, i, n);
      if e.manifest.None? && n == d.name {
        RepIsUniqueTree(false, false, s, s[n], c, d);
        ValidIsMixed(d.name, d.entries);
        ScanWithout(d.name, d.entries, i, k');
      } else {
        GraftedScan(s, s', d, i, c.name, Child(s, base, e).value.entries, c.entries, k');
      }
    }
  }

  lemma ReplacedIs(s: Blobs, s': Blobs, d: Manifest, i: nat, n: Str)
    requires Lost(s, s', d, i)
    ensures var d' := d.(entries := Without(d.entries, i));
      (Merge.Replaced(s, s', [d'], n) <==> n == d.name) && StackAt([d'], d.name) == Some(d')
  {
    var d' := d.(entries := Without(d.entries, i));
    assert [d'][0] == d' && NodeAt(d', d.name) == Some(d');
  }

  /** If the node that answers is read under its own name, no other key's answer changes; the key
      itself is then answered by what its node has left for it. */
  lemma OwnedDelete(s: Blobs, t: Manifest, key: Str, k: Str)
    requires t.name in s && Rep(false, s, s[t.name], t) && MixedTree(t) && Owned(s, s[t.name], key, true)
    ensures k != key ==> Scan(AfterDelete(s, s[t.name], t, key).entries, k) == Scan(t.entries, k)
  {
    hide Rep, MixedEntries, ValidEntries, Locate, Owned, Without;
    var m := s[t.name];
    OwnedIsStored(s, m, t, key, true);
    LocateInTree(s, m, t, key);
    var (fm, i) := Locate(s, m, key).value;
    var d := Locate(map[], t, key).value.0;
    if k != key {
      assert t.name + k != t.name + key by { assert (t.name + k)[|t.name|..] == k && (t.name + key)[|t.name|..] == key; }
      NameOfRep(false, s, fm, d);
      if d.name == t.name {
        ScanWithout(t.name, t.entries, i, k);
      } else {
        OwnedIsLost(s, m, key, fm, d, i);
        GraftedScan(s, Spliced(s, m, key), d, i, t.name, m.entries, t.entries, k) by { EntriesOf(s, m, t); }
      }
    }
  }

  lemma EntriesOf(s: Blobs, m: Manifest, t: Manifest)
    requires Rep(false, s, m, t) && MixedTree(t)
    ensures RepEntries(false, s, t.name, m.entries, t.entries) && MixedEntries(t.name, t.entries)
  {
  }

  lemma OwnedIsLost(s: Blobs, m: Manifest, key: Str, fm: Manifest, d: Manifest, i: nat)
    requires Locate(s, m, key) == Some((fm, i)) && Rep(false, s, fm, d) && ValidTree(d)
    requires fm.name in s && s[fm.name] == fm && i < |d.entries| && d.entries[i].etype.LeafEntry?
    ensures Lost(s, Spliced(s, m, key), d, i)
  {
    hide ValidEntries, RepEntry;
    SplicedIs(s, m, key, fm, d, i);
  }

  /** If the name of the node is not read at all, the delete changes nothing that lookups see. */
  lemma UnreadDelete(s: Blobs, t: Manifest, key: Str)
    requires t.name in s && Rep(false, s, s[t.name], t) && MixedTree(t) && Locate(s, s[t.name], key).Some?
    requires var n := Locate(s, s[t.name], key).value.0.name; n != t.name && !Reads(s, s[t.name], t, n)
    ensures AfterDelete(s, s[t.name], t, key) == t
  {
    hide Rep, MixedEntries, Locate, Reads, Shrunk, AfterDelete, Spliced;
    var m, s' := s[t.name], Spliced(s, s[t.name], key);
    ShrunkIsStored(s, m, t, key);
    DeletedRep(s, t, key);
    assert SameAt(s, s', t.name);
    UnreadIsHidden(false, s, s', m, t);
    MixedIsUnique(s', m, t, AfterDelete(s, m, t, key));
  }

  lemma MixedIsUnique(s: Blobs, m: Manifest, t: Manifest, u: Manifest)
    requires Rep(false, s, m, t) && Rep(false, s, m, u) && MixedTree(t) && MixedTree(u)
    ensures t == u
  {
    forall i | 0 <= i < |t.entries| ensures t.entries[i] == u.entries[i] {
      assert ValidEntry(t.name, t.entries[i]) && ValidEntry(t.name, u.entries[i]);
      RepIsUnique(false, false, s, t.name, m.entries[i], t.entries[i], u.entries[i]);
    }
    assert t.entries == u.entries;
  }

  /** On a valid tree there is nothing between the two: the delete is the delete on the tree if the
      node is read under its own name, and nothing that lookups see if it is not. */
  lemma ValidDelete(s: Blobs, t: Manifest, key: Str)
    requires t.name in s && Rep(false, s, s[t.name], t) && ValidTree(t) && Locate(s, s[t.name], key).Some?
    ensures AfterDelete(s, s[t.name], t, key) == if Owned(s, s[t.name], key, true) then RemoveTree(t, key) else t
  {
    hide Rep, ValidEntries, Locate, AfterDelete, Spliced, Owned;
    ValidIsMixed(t.name, t.entries);
    RemoveRep(false, s, t, key);
    DeletedRep(s, t, key);
    RemoveIsValid(t.name, t.entries, key);
    ValidIsMixed(t.name, Remove.Remove(t.entries, key));
    MixedIsUnique(Spliced(s, s[t.name], key), Spliced(s, s[t.name], key)[t.name],
                  if Owned(s, s[t.name], key, true) then RemoveTree(t, key) else t, AfterDelete(s, s[t.name], t, key));
  }

  /** A leaf of the root itself, also of a merged root: the root loses this one entry. */
  lemma RootDelete(s: Blobs, t: Manifest, key: Str)
    requires t.name in s && Rep(false, s, s[t.name], t) && MixedTree(t)
    requires Taker(t.entries, key).Some? && Taker(t.entries, key).value.etype.LeafEntry?
    ensures Owned(s, s[t.name], key, true) && ScanSlot(t.entries, key) < |t.entries|
    ensures var i := ScanSlot(t.entries, key);
      AfterDelete(s, s[t.name], t, key) == t.(entries := t.entries[..i] + t.entries[i + 1..])
  {
    hide ScanSlot;
    RepIsAlike(false, s, t.name, s[t.name].entries, t.entries);
    ScanSlotAlike(s[t.name].entries, t.entries, key);
  }
}
