/** How the steps of the index methods meet the functions that specify them. */
module Steps {
  import opened Bytes
  import opened Tree
  import opened Insert
  import opened Storage

  // ----- How the branches of a put meet the put on the loaded tree -----

  /** The entry at `i` splits after `prefix`: before and after the node itself is rewritten,
      the stored form means what it should. */
  lemma SplitRep(s: Blobs, s': Blobs, manifest: Manifest, t: Manifest, i: nat, prefix: Str, suffix: Str, ks: Str, value: Str)
    requires Rep(true, s, manifest, t) && ValidTree(t) && i < |t.entries|
    requires prefix != [] && t.entries[i].name == prefix + suffix && Head(suffix) != Head(ks)
    requires t.entries[i].etype.IntermediateEntry? ==> suffix != []
    requires s' == s[t.name + prefix := Pair(t.name + prefix, LeafOf(ks, [value]), Rest(manifest.entries[i], suffix))]
    ensures Rep(true, s', manifest, t)
    ensures Rep(true, s',
      manifest.(entries := manifest.entries[i := Entry(prefix, IntermediateEntry, manifest.entries[i].ref, None)]),
      t.(entries := t.entries[i := Split(t.name, t.entries[i], |prefix|, prefix + ks, value)]))
  {
    hide Pair, Split;
    var e, f, key, n := manifest.entries[i], t.entries[i], prefix + ks, |prefix|;
    assert ValidEntry(t.name, f) && RepEntry(true, s, t.name, e, f);
    assert f.name[..n] == prefix == key[..n] && f.name[n..] == suffix && key[n..] == ks;
    SplitIsSafe(s, s', t.name, e, f, n, key, value);
    forall x | !(t.name + prefix <= x) ensures SameAt(s, s', x) {}
    TouchedRep(s, s', manifest, t, i, prefix, e, f);
    assert manifest.entries[i := e] == manifest.entries && t.entries[i := f] == t.entries;
    TouchedRep(s, s', manifest, t, i, prefix, Entry(prefix, IntermediateEntry, e.ref, None), Split(t.name, f, n, key, value));
  }

  lemma SplitShape(base: Str, f: Entry, prefix: Str, suffix: Str, ks: Str, value: Str)
    requires f.name == prefix + suffix
    ensures Split(base, f, |prefix|, prefix + ks, value) ==
            BranchTo(prefix, f.ref, Pair(base + prefix, LeafOf(ks, [value]), Rest(f, suffix)))
  {
    assert (prefix + ks)[..|prefix|] == prefix && (prefix + ks)[|prefix|..] == ks;
    assert f.name[|prefix|..] == suffix;
  }

  /** A branch whose child took the rest of the key. */
  function Descended(f: Entry, ks: Str, value: Str, apnd: bool): Entry
    requires f.manifest.Some?
  {
    var d := f.manifest.value;
    f.(manifest := Some(PutTree(d, ks, value, apnd)))
  }

  lemma DescendShape(base: Str, f: Entry, key: Str, value: Str, apnd: bool)
    requires ValidEntry(base, f) && f.etype.IntermediateEntry? && f.name <= key
    ensures Touch(base, f, key, value, apnd) == Descended(f, key[|f.name|..], value, apnd)
  {
    CommonLengthIsUnique(f.name, key, |f.name|);
  }

  lemma NewLeafRep(s: Blobs, manifest: Manifest, t: Manifest, key: Str, value: Str, apnd: bool)
    requires Rep(true, s, manifest, t)
    requires key == [] || Slot(t.entries, key) == |t.entries|
    ensures Rep(true, s, manifest.(entries := AddSorted(manifest.entries, LeafOf(key, [value]))),
                PutTree(t, key, value, apnd))
  {
    AddSortedRep(true, s, t.name, manifest.entries, t.entries, LeafOf(key, [value]), LeafOf(key, [value]));
  }

  lemma StoredAtRoot(s0: Blobs, s: Blobs, s': Blobs, m: Manifest, t: Manifest)
    requires SameOutside(s0, s, t.name) && s' == s[t.name := m]
    requires Rep(true, s, m, t) && ValidTree(t)
    ensures Rep(true, s', m, t) && SameOutside(s0, s', t.name)
  {
    forall n | !(t.name <= n) ensures SameAt(s0, s', n) {
      assert SameAt(s0, s, n);
    }
    RepFrameTree(true, s, s', m, t);
  }

  /** The three ways in which an existing entry takes a put, as steps of `Put`. */
  lemma TouchPut(t: Manifest, i: nat, key: Str, value: Str, apnd: bool)
    requires key != [] && i == Slot(t.entries, key) && i < |t.entries|
    ensures PutTree(t, key, value, apnd) ==
            t.(entries := t.entries[i := Touch(t.name, t.entries[i], key, value, apnd)])
  {
  }

  lemma PutNothing(t: Manifest, key: Str, value: Str, apnd: bool)
    requires key == [] || Slot(t.entries, key) == |t.entries|
    ensures PutTree(t, key, value, apnd) == t.(entries := AddSorted(t.entries, LeafOf(key, [value])))
    ensures Fresh(t.entries, key)
  {
  }

  lemma UpdatePut(t: Manifest, i: nat, key: Str, value: Str, apnd: bool)
    requires key != [] && i == Slot(t.entries, key) && i < |t.entries|
    requires t.entries[i].etype.LeafEntry? && t.entries[i].name == key
    ensures PutTree(t, key, value, apnd) == t.(entries := t.entries[i :=
      t.entries[i].(ref := (if apnd then t.entries[i].ref else []) + [value])])
  {
    TouchPut(t, i, key, value, apnd);
  }

  lemma SplitTouch(base: Str, f: Entry, prefix: Str, suffix: Str, ks: Str, value: Str, apnd: bool)
    requires prefix != [] && f.name == prefix + suffix && Head(suffix) != Head(ks)
    requires f.etype.IntermediateEntry? ==> suffix != []
    ensures Touch(base, f, prefix + ks, value, apnd) == Split(base, f, |prefix|, prefix + ks, value)
  {
    var key, n := prefix + ks, |prefix|;
    assert f.name[..n] == prefix == key[..n] && f.name[n..] == suffix && key[n..] == ks;
    CommonLengthIsUnique(f.name, key, n);
    assert suffix != [] ==> n < |f.name|;
    assert f.name != key;
  }

  lemma SplitPut(t: Manifest, i: nat, prefix: Str, suffix: Str, ks: Str, value: Str, apnd: bool)
    requires prefix != [] && i == Slot(t.entries, prefix + ks) && i < |t.entries|
    requires t.entries[i].name == prefix + suffix && Head(suffix) != Head(ks)
    requires t.entries[i].etype.IntermediateEntry? ==> suffix != []
    ensures PutTree(t, prefix + ks, value, apnd) == t.(entries := t.entries[i :=
      Split(t.name, t.entries[i], |prefix|, prefix + ks, value)])
  {
    TouchPut(t, i, prefix + ks, value, apnd);
    SplitTouch(t.name, t.entries[i], prefix, suffix, ks, value, apnd);
  }

  lemma DescendPut(t: Manifest, i: nat, key: Str, value: Str, apnd: bool)
    requires ValidTree(t) && key != [] && i == Slot(t.entries, key) && i < |t.entries|
    requires t.entries[i].etype.IntermediateEntry? && t.entries[i].manifest.Some? && t.entries[i].name <= key
    ensures PutTree(t, key, value, apnd) == t.(entries := t.entries[i :=
      Descended(t.entries[i], key[|t.entries[i].name|..], value, apnd)])
  {
    assert ValidEntry(t.name, t.entries[i]);
    TouchPut(t, i, key, value, apnd);
    DescendShape(t.name, t.entries[i], key, value, apnd);
  }

  lemma EntryOfRep(s: Blobs, m: Manifest, t: Manifest, i: nat)
    requires Rep(false, s, m, t) && MixedTree(t) && i < |t.entries|
    ensures RepEntry(false, s, t.name, m.entries[i], t.entries[i]) && ValidEntry(t.name, t.entries[i])
    ensures t.entries[i].etype.LeafEntry? ==> m.entries[i] == t.entries[i] && |EntryLeaves(t.entries[i])| == 1
  {
    assert ValidEntry(t.name, t.entries[i]);
  }

  lemma CachedRep(s: Blobs, m: Manifest, t: Manifest, i: nat, e: Entry)
    requires Rep(false, s, m, t) && i < |t.entries| && RepEntry(false, s, t.name, e, t.entries[i])
    ensures Rep(false, s, m.(entries := m.entries[i := e]), t)
  {
  }
}
