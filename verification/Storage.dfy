/** The feed that holds manifests by name, and what a stored manifest stands for. */
module Storage {
  import opened Bytes
  import opened Tree
  import opened Insert

  type Blobs = map<Str, Manifest>

  datatype Error =
    | NoManifestFound
    | ManifestCreate
    | BlobUpload
    | EntryNotFound
    | ReadOnlyIndex
    | CannotModifyImmutableIndex
    | EmptyIndex
    | IndexAlreadyPresent
    | IndexNotPresent
    | NoNextElement
    | KeyNotANumber

  datatype Outcome = Done | Failed(error: Error)

  datatype Result<+T> = Ok(value: T) | Err(error: Error)

  /** The errors that a read or a write of the feed gives. */
  predicate IsIoError(e: Error) {
    e == NoManifestFound || e == ManifestCreate || e == BlobUpload
  }

  // ----- A stored manifest represents a loaded tree -----

  /** The child of a branch: embedded in the entry, or stored under the path. */
  function Child(s: Blobs, base: Str, e: Entry): Option<Manifest> {
    if e.manifest.Some? then e.manifest
    else if base + e.name in s then Some(s[base + e.name])
    else None
  }

  /** Entry `e`, read against the store `s`, is the loaded entry `f`. In the flat form no
      child is embedded. */
  predicate RepEntry(flat: bool, s: Blobs, base: Str, e: Entry, f: Entry)
    decreases f
  {
    && e.name == f.name && e.etype == f.etype && e.ref == f.ref
    && if f.manifest.None? then e.manifest.None?
       else
         var c, d := Child(s, base, e), f.manifest.value;
         && (flat ==> e.manifest.None?)
         && c.Some?
         && c.value.name == d.name && c.value.mutable == d.mutable && |c.value.entries| == |d.entries|
         && forall i :: 0 <= i < |d.entries| ==> RepEntry(flat, s, d.name, c.value.entries[i], d.entries[i])
  }

  predicate RepEntries(flat: bool, s: Blobs, base: Str, es: seq<Entry>, fs: seq<Entry>) {
    |es| == |fs| && forall i :: 0 <= i < |fs| ==> RepEntry(flat, s, base, es[i], fs[i])
  }

  /** The manifest `m` read against the store `s` is the tree `t`. */
  predicate Rep(flat: bool, s: Blobs, m: Manifest, t: Manifest) {
    m.name == t.name && m.mutable == t.mutable && RepEntries(flat, s, t.name, m.entries, t.entries)
  }

  /** The stores agree on one name. */
  predicate SameAt(s: Blobs, s': Blobs, n: Str) {
    (n in s <==> n in s') && (n in s ==> s[n] == s'[n])
  }

  ghost predicate SameUnder(s: Blobs, s': Blobs, p: Str) {
    forall n :: p <= n ==> SameAt(s, s', n)
  }

  /** Nothing but names that extend `p` has changed. */
  ghost predicate SameOutside(s: Blobs, s': Blobs, p: Str) {
    forall n :: !(p <= n) ==> SameAt(s, s', n)
  }

  /** An entry depends on the store below its own path only. */
  lemma {:induction false} RepFrame(flat: bool, s: Blobs, s': Blobs, base: Str, e: Entry, f: Entry)
    requires RepEntry(flat, s, base, e, f) && ValidEntry(base, f)
    requires SameUnder(s, s', base + f.name)
    ensures RepEntry(flat, s', base, e, f)
    decreases f
  {
    if f.manifest.Some? {
      var c, d := Child(s, base, e).value, f.manifest.value;
      assert SameAt(s, s', base + f.name);
      forall i | 0 <= i < |d.entries| ensures RepEntry(flat, s', d.name, c.entries[i], d.entries[i]) {
        assert ValidEntry(d.name, d.entries[i]);
        ExtendUnder(s, s', d.name, d.entries[i].name);
        RepFrame(flat, s, s', d.name, c.entries[i], d.entries[i]);
      }
    }
  }

  lemma NameOfRep(flat: bool, s: Blobs, m: Manifest, t: Manifest)
    requires Rep(flat, s, m, t)
    ensures m.name == t.name
  {
  }

  /** What has changed below a longer path has changed below a shorter one. */
  lemma Outside(s: Blobs, s': Blobs, p: Str, x: Str)
    requires SameOutside(s, s', p + x)
    ensures SameOutside(s, s', p)
  {
    forall n | !(p <= n) ensures SameAt(s, s', n) {
      PrefixTransitive(p, x, n);
    }
  }

  lemma ExtendUnder(s: Blobs, s': Blobs, p: Str, x: Str)
    requires SameUnder(s, s', p)
    ensures SameUnder(s, s', p + x)
  {
    forall n | p + x <= n ensures SameAt(s, s', n) {
      assert p == n[..|p|];
    }
  }

  /** A tree depends on names strictly longer than its own. */
  lemma RepFrameTree(flat: bool, s: Blobs, s': Blobs, m: Manifest, t: Manifest)
    requires Rep(flat, s, m, t) && ValidTree(t)
    requires forall n :: t.name <= n && n != t.name ==> SameAt(s, s', n)
    ensures Rep(flat, s', m, t)
  {
    forall i | 0 <= i < |t.entries| ensures RepEntry(flat, s', t.name, m.entries[i], t.entries[i]) {
      var f := t.entries[i];
      assert ValidEntry(t.name, f);
      if f.manifest.Some? {
        forall n | t.name + f.name <= n ensures SameAt(s, s', n) {
          assert t.name == n[..|t.name|];
        }
        RepFrame(flat, s, s', t.name, m.entries[i], f);
      }
    }
  }

  /** The siblings of an entry do not notice changes below it. */
  lemma RepSibling(flat: bool, s: Blobs, s': Blobs, base: Str, e: Entry, f: Entry, p: Str)
    requires RepEntry(flat, s, base, e, f) && ValidEntry(base, f)
    requires p != [] && Head(p) != Head(f.name)
    requires SameOutside(s, s', base + p)
    ensures RepEntry(flat, s', base, e, f)
  {
    if f.manifest.Some? {
      ApartByHead(base, p, f.name);
      forall n | base + f.name <= n ensures SameAt(s, s', n) {
        PrefixesAreNested(base + p, base + f.name, n);
      }
      RepFrame(flat, s, s', base, e, f);
    }
  }

  /** A loaded tree represents itself in every store. */
  lemma {:induction false} RepSelf(s: Blobs, base: Str, f: Entry)
    requires ValidEntry(base, f)
    ensures RepEntry(false, s, base, f, f)
    decreases f
  {
    if f.manifest.Some? {
      var d := f.manifest.value;
      forall i | 0 <= i < |d.entries| ensures RepEntry(false, s, d.name, d.entries[i], d.entries[i]) {
        assert ValidEntry(d.name, d.entries[i]);
        RepSelf(s, d.name, d.entries[i]);
      }
    }
  }

  lemma RepSelfTree(s: Blobs, t: Manifest)
    requires ValidTree(t)
    ensures Rep(false, s, t, t)
  {
    forall i | 0 <= i < |t.entries| ensures RepEntry(false, s, t.name, t.entries[i], t.entries[i]) {
      assert ValidEntry(t.name, t.entries[i]);
      RepSelf(s, t.name, t.entries[i]);
    }
  }

  /** Reading a stored manifest gives one tree, in either form. */
  lemma {:induction false} RepIsUnique(flat: bool, flat': bool, s: Blobs, base: Str, e: Entry, f: Entry, g: Entry)
    requires RepEntry(flat, s, base, e, f) && RepEntry(flat', s, base, e, g)
    requires ValidEntry(base, f) && ValidEntry(base, g)
    ensures f == g
    decreases f
  {
    if f.manifest.Some? {
      var d, d' := f.manifest.value, g.manifest.value;
      forall i | 0 <= i < |d.entries| ensures d.entries[i] == d'.entries[i] {
        assert ValidEntry(d.name, d.entries[i]) && ValidEntry(d.name, d'.entries[i]);
        var c := Child(s, base, e).value;
        RepIsUnique(flat, flat', s, d.name, c.entries[i], d.entries[i], d'.entries[i]);
      }
      assert d.entries == d'.entries;
    }
  }

  lemma RepIsUniqueTree(flat: bool, flat': bool, s: Blobs, m: Manifest, t: Manifest, u: Manifest)
    requires Rep(flat, s, m, t) && Rep(flat', s, m, u) && ValidTree(t) && ValidTree(u)
    ensures t == u
  {
    forall i | 0 <= i < |t.entries| ensures t.entries[i] == u.entries[i] {
      assert ValidEntry(t.name, t.entries[i]) && ValidEntry(t.name, u.entries[i]);
      RepIsUnique(flat, flat', s, t.name, m.entries[i], t.entries[i], u.entries[i]);
    }
    assert t.entries == u.entries;
  }

  lemma {:induction false} FlatIsRep(s: Blobs, base: Str, e: Entry, f: Entry)
    requires RepEntry(true, s, base, e, f)
    ensures RepEntry(false, s, base, e, f)
    decreases f
  {
    if f.manifest.Some? {
      var c, d := s[base + e.name], f.manifest.value;
      forall i | 0 <= i < |d.entries| ensures RepEntry(false, s, d.name, c.entries[i], d.entries[i]) {
        FlatIsRep(s, d.name, c.entries[i], d.entries[i]);
      }
    }
  }

  lemma FlatIsRepTree(s: Blobs, m: Manifest, t: Manifest)
    requires Rep(true, s, m, t)
    ensures Rep(false, s, m, t)
  {
    forall i | 0 <= i < |t.entries| ensures RepEntry(false, s, t.name, m.entries[i], t.entries[i]) {
      FlatIsRep(s, t.name, m.entries[i], t.entries[i]);
    }
  }

  // ----- The store after one step of an on-disk put -----

  /** One entry of a node may change, with the store below it, if the new entry is
      represented in the new store. */
  lemma RepReplace(flat: bool, s: Blobs, s': Blobs, base: Str, es: seq<Entry>, fs: seq<Entry>, i: nat,
                   p: Str, e: Entry, f: Entry)
    requires RepEntries(flat, s, base, es, fs) && ValidEntries(base, fs) && i < |es|
    requires es[i].name != [] && Head(f.name) == Head(es[i].name)
    requires p != [] && Head(p) == Head(es[i].name) && SameOutside(s, s', base + p)
    requires RepEntry(flat, s', base, e, f)
    ensures RepEntries(flat, s', base, es[i := e], fs[i := f])
  {
    forall j | 0 <= j < |es| && j != i ensures RepEntry(flat, s', base, es[j], fs[j]) {
      assert ValidEntry(base, fs[j]);
      assert Head(fs[j].name) != Head(fs[i].name);
      RepSibling(flat, s, s', base, es[j], fs[j], p);
    }
  }

  /** The entry at `i` and the store below it have changed to what `Touch` makes of it. */
  lemma TouchedRep(s: Blobs, s': Blobs, manifest: Manifest, t: Manifest, i: nat, p: Str, e: Entry, f: Entry)
    requires Rep(true, s, manifest, t) && ValidTree(t) && i < |t.entries| && t.entries[i].name != []
    requires p != [] && Head(p) == Head(f.name) == Head(t.entries[i].name)
    requires SameOutside(s, s', t.name + p) && RepEntry(true, s', t.name, e, f)
    ensures Rep(true, s', manifest.(entries := manifest.entries[i := e]), t.(entries := t.entries[i := f]))
  {
    RepReplace(true, s, s', t.name, manifest.entries, t.entries, i, p, e, f);
  }

  /** The child below the entry at `i` has changed; the node itself is as it was. */
  lemma DescendedRep(s: Blobs, s': Blobs, manifest: Manifest, t: Manifest, i: nat, d: Manifest)
    requires Rep(true, s, manifest, t) && ValidTree(t) && i < |t.entries| && t.entries[i].manifest.Some?
    requires var n := t.name + t.entries[i].name;
             SameOutside(s, s', n) && n in s' && Rep(true, s', s'[n], d)
    ensures Rep(true, s', manifest, t.(entries := t.entries[i := t.entries[i].(manifest := Some(d))]))
    ensures SameOutside(s, s', t.name) && SameAt(s, s', t.name)
  {
    var f := t.entries[i];
    assert ValidEntry(t.name, f);
    assert RepEntry(true, s, t.name, manifest.entries[i], f);
    TouchedRep(s, s', manifest, t, i, f.name, manifest.entries[i], f.(manifest := Some(d)));
    assert manifest.entries == manifest.entries[i := manifest.entries[i]];
    forall n | !(t.name <= n) || n == t.name ensures SameAt(s, s', n) {
      PrefixTransitive(t.name, f.name, n);
    }
  }

  /** Storing the new child of a split first is safe: its name belongs to no node that is
      reachable yet, so the old entry still means what it meant; and the new entry means
      what the in-memory split means. */
  lemma SplitIsSafe(s: Blobs, s': Blobs, base: Str, e: Entry, f: Entry, n: nat, key: Str, value: Str)
    requires RepEntry(true, s, base, e, f) && ValidEntry(base, f)
    requires 0 < n <= |key| && n <= |e.name| && e.name[..n] == key[..n]
    requires Head(e.name[n..]) != Head(key[n..])
    requires e.etype.IntermediateEntry? ==> n < |e.name|
    requires s' == s[base + key[..n] := Pair(base + key[..n], LeafOf(key[n..], [value]), Rest(e, e.name[n..]))]
    ensures RepEntry(true, s', base, e, f)
    ensures RepEntry(true, s', base, Entry(key[..n], IntermediateEntry, e.ref, None), Split(base, f, n, key, value))
  {
    hide Pair, RepEntry;
    var prefix, suffix, leaf := key[..n], e.name[n..], LeafOf(key[n..], [value]);
    assert e.name == prefix + suffix;
    RepBelowSplit(s, s', base, prefix, e, f, suffix, Pair(base + prefix, leaf, Rest(e, suffix)));
    var d := Pair(base + prefix, leaf, Rest(f, suffix));
    assert Split(base, f, n, key, value) == BranchTo(prefix, e.ref, d);
    assert Rep(true, s', s'[base + prefix], d) by {
      PairRep(true, s', base + prefix, leaf, Rest(e, suffix), Rest(f, suffix));
    }
    RepByName(true, s', base, prefix, e.ref, d);
  }

  lemma RepByName(flat: bool, s: Blobs, base: Str, name: Str, ref: Refs, d: Manifest)
    requires base + name in s && Rep(flat, s, s[base + name], d)
    ensures RepEntry(flat, s, base, Entry(name, IntermediateEntry, ref, None), BranchTo(name, ref, d))
  {
  }

  lemma RepBelowSplit(s: Blobs, s': Blobs, base: Str, prefix: Str, e: Entry, f: Entry, suffix: Str, pair: Manifest)
    requires RepEntry(true, s, base, e, f) && ValidEntry(base, f)
    requires e.name == prefix + suffix && s' == s[base + prefix := pair]
    requires e.etype.IntermediateEntry? ==> suffix != []
    ensures RepEntry(true, s', base, e, f)
    ensures RepEntry(true, s', base + prefix, Rest(e, suffix), Rest(f, suffix))
  {
    assert base + prefix + suffix == base + e.name;
    if f.manifest.Some? {
      forall x | base + f.name <= x ensures SameAt(s, s', x) {
        assert |x| > |base + prefix|;
      }
      RepFrame(true, s, s', base, e, f);
    }
  }

  lemma PairRep(flat: bool, s: Blobs, base: Str, leaf: Entry, e: Entry, f: Entry)
    requires leaf.etype.LeafEntry? && leaf.manifest.None? && Head(leaf.name) != Head(e.name)
    requires RepEntry(flat, s, base, e, f)
    ensures Rep(flat, s, Pair(base, leaf, e), Pair(base, leaf, f))
  {
    hide Pair;
    PairInOrder(base, leaf, e);
    PairInOrder(base, leaf, f);
  }

  /** The two lists agree in all but the children. */
  predicate Alike(es: seq<Entry>, fs: seq<Entry>) {
    && |es| == |fs|
    && forall i :: 0 <= i < |fs| ==> es[i].name == fs[i].name && es[i].etype == fs[i].etype && es[i].ref == fs[i].ref
  }

  lemma RepIsAlike(flat: bool, s: Blobs, base: Str, es: seq<Entry>, fs: seq<Entry>)
    requires RepEntries(flat, s, base, es, fs)
    ensures Alike(es, fs)
  {
  }

  /** Sorted insertion does the same to lists that agree in all but the children. */
  lemma AddSortedAlike(es: seq<Entry>, fs: seq<Entry>, e: Entry, f: Entry)
    requires Alike(es, fs) && Alike([e], [f])
    ensures f.name == [] ==> AddSorted(es, e) == InsertAt(es, 0, e) && AddSorted(fs, f) == InsertAt(fs, 0, f)
    ensures f.name != [] && Duplicate(fs, f) ==> AddSorted(es, e) == es && AddSorted(fs, f) == fs
    ensures f.name != [] && !Duplicate(fs, f) ==> var p := InsertPosition(fs, f.name);
      AddSorted(es, e) == InsertAt(es, p, e) && AddSorted(fs, f) == InsertAt(fs, p, f)
  {
    hide InsertPosition, Duplicate, InsertAt;
    assert e.name == f.name by { assert [e][0] == e && [f][0] == f; }
    SameDuplicate(es, fs, e, f);
    SamePosition(es, fs, e.name);
    AtFront(es, e);
    AtFront(fs, f);
  }

  lemma AtFront(es: seq<Entry>, e: Entry)
    ensures InsertAt(es, 0, e) == [e] + es
  {
  }

  lemma SamePosition(es: seq<Entry>, fs: seq<Entry>, name: Str)
    requires Alike(es, fs)
    ensures InsertPosition(es, name) == InsertPosition(fs, name)
  {
    InsertPositionIsUnique(es, name, InsertPosition(fs, name));
  }

  lemma SameDuplicate(es: seq<Entry>, fs: seq<Entry>, e: Entry, f: Entry)
    requires Alike(es, fs) && Alike([e], [f])
    ensures Duplicate(es, e) <==> Duplicate(fs, f)
  {
    assert [e][0] == e && [f][0] == f;
    if i :| 0 <= i < |es| && es[i].name == e.name && es[i].etype == e.etype && es[i].ref == e.ref {
      assert fs[i].name == f.name;
    }
    if i :| 0 <= i < |fs| && fs[i].name == f.name && fs[i].etype == f.etype && fs[i].ref == f.ref {
      assert es[i].name == e.name;
    }
  }

  /** Sorted insertion works alike on the stored and on the loaded node. */
  lemma AddSortedRep(flat: bool, s: Blobs, base: Str, es: seq<Entry>, fs: seq<Entry>, e: Entry, f: Entry)
    requires RepEntries(flat, s, base, es, fs) && RepEntry(flat, s, base, e, f)
    ensures RepEntries(flat, s, base, AddSorted(es, e), AddSorted(fs, f))
  {
    hide RepEntries, InsertPosition, Duplicate, AddSorted;
    RepIsAlike(flat, s, base, es, fs);
    AddSortedAlike(es, fs, e, f);
    if f.name == [] || !Duplicate(fs, f) {
      InsertAtRep(flat, s, base, es, fs, if f.name == [] then 0 else InsertPosition(fs, f.name), e, f);
    }
  }

  lemma InsertAtRep(flat: bool, s: Blobs, base: Str, es: seq<Entry>, fs: seq<Entry>, p: nat, e: Entry, f: Entry)
    requires RepEntries(flat, s, base, es, fs) && RepEntry(flat, s, base, e, f) && |es| == |fs| && p <= |fs|
    ensures RepEntries(flat, s, base, InsertAt(es, p, e), InsertAt(fs, p, f))
  {
    hide RepEntry;
    var r, q := InsertAt(es, p, e), InsertAt(fs, p, f);
    forall i | 0 <= i < |q| ensures RepEntry(flat, s, base, r[i], q[i]) {
      if i < p {
        assert r[i] == es[i] && q[i] == fs[i];
      } else if i > p {
        assert r[i] == es[i - 1] && q[i] == fs[i - 1];
      }
    }
  }

  // ----- The feed itself -----

  /** Snapshots by name, and blobs by reference. A read or a write may fail; `faults` counts how
      often one did. */
  class Feed {
    var blobs: Blobs
    const readOnly: bool
    const reference: Str -> Str
    ghost var faults: nat

    constructor (readOnly: bool, reference: Str -> Str)
      ensures blobs == map[] && this.readOnly == readOnly && this.reference == reference && faults == 0
    {
      this.readOnly, this.reference := readOnly, reference;
      blobs := map[];
      faults := 0;
    }

    method Load(name: Str) returns (r: Result<Manifest>)
      modifies this`faults
      ensures faults >= old(faults)
      ensures r.Ok? ==> name in blobs && r.value == blobs[name] && faults == old(faults)
      ensures r.Err? ==> r.error == NoManifestFound && (name !in blobs || faults > old(faults))
    {
      var reachable: bool := *;
      if !reachable {
        faults := faults + 1;
        return Err(NoManifestFound);
      }
      if name !in blobs {
        return Err(NoManifestFound);
      }
      return Ok(blobs[name]);
    }

    /** `storeManifest` and `updateManifest`: create or overwrite the snapshot. */
    method Store(m: Manifest) returns (r: Outcome)
      modifies this
      ensures faults >= old(faults)
      ensures r.Done? ==> blobs == old(blobs)[m.name := m] && faults == old(faults)
      ensures r.Failed? ==> IsIoError(r.error) && blobs == old(blobs) && faults > old(faults)
    {
      var reachable: bool := *;
      if !reachable {
        faults := faults + 1;
        return Failed(ManifestCreate);
      }
      blobs := blobs[m.name := m];
      return Done;
    }

    /** Uploads a blob: what it can be found under is determined by what it holds. */
    method Upload(data: Str) returns (r: Result<Str>)
      modifies this`faults
      ensures faults >= old(faults)
      ensures r.Ok? ==> r.value == reference(data) && faults == old(faults)
      ensures r.Err? ==> r.error == BlobUpload && faults > old(faults)
    {
      var reachable: bool := *;
      if !reachable {
        faults := faults + 1;
        return Err(BlobUpload);
      }
      return Ok(reference(data));
    }
  }
}
