/** The names of the nodes of a tree, and those under which a lookup reads the store. */
module Nodes {
  import opened Bytes
  import opened Tree
  import opened Storage

  // ----- The nodes of a tree -----

  /** Some branch of the tree leads to a node of this name. */
  predicate Reaches(es: seq<Entry>, name: Str)
    decreases es
  {
    exists i :: 0 <= i < |es| && es[i].manifest.Some? &&
      (es[i].manifest.value.name == name || Reaches(es[i].manifest.value.entries, name))
  }

  /** A node of the tree has this name. */
  predicate HasNode(t: Manifest, name: Str) {
    name == t.name || Reaches(t.entries, name)
  }

  lemma NodeBelow(es: seq<Entry>, i: nat, name: Str)
    requires i < |es| && es[i].manifest.Some? && HasNode(es[i].manifest.value, name)
    ensures Reaches(es, name)
  {
  }

  lemma {:induction false} ReachedNames(base: Str, es: seq<Entry>, name: Str)
    requires MixedEntries(base, es) && Reaches(es, name)
    ensures exists i :: 0 <= i < |es| && es[i].manifest.Some? && base + es[i].name <= name
    ensures base < name
    decreases es
  {
    var i :| 0 <= i < |es| && es[i].manifest.Some? && HasNode(es[i].manifest.value, name);
    var e := es[i];
    assert ValidEntry(base, e);
    NodeStarts(base, e, name);
    PrefixTransitive(base, e.name, name);
  }

  /** All nodes below a branch start with the path of the branch. */
  lemma {:induction false} NodeStarts(base: Str, e: Entry, name: Str)
    requires ValidEntry(base, e) && e.manifest.Some? && HasNode(e.manifest.value, name)
    ensures base + e.name <= name
    decreases e
  {
    if e.manifest.value.name != name {
      var below := e.manifest.value.entries;
      ValidIsMixed(base + e.name, below);
      ReachedNames(base + e.name, below, name);
    }
  }

  /** The node of this name. */
  function NodeAt(t: Manifest, name: Str): Option<Manifest>
    decreases t, |t.entries| + 1
  {
    if name == t.name then Some(t) else NodeIn(t.entries, name)
  }

  function NodeIn(es: seq<Entry>, name: Str): Option<Manifest>
    decreases es, |es|
  {
    if es == [] then None
    else if es[0].manifest.Some? && NodeAt(es[0].manifest.value, name).Some? then NodeAt(es[0].manifest.value, name)
    else NodeIn(es[1..], name)
  }

  lemma {:induction false} NodeInIsReached(es: seq<Entry>, name: Str)
    ensures NodeIn(es, name).Some? <==> Reaches(es, name)
    decreases es
  {
    if es != [] {
      NodeInIsReached(es[1..], name);
      if es[0].manifest.Some? {
        NodeInIsReached(es[0].manifest.value.entries, name);
      }
      if Reaches(es, name) && !(es[0].manifest.Some? && HasNode(es[0].manifest.value, name)) {
        var i :| 0 <= i < |es| && es[i].manifest.Some? && HasNode(es[i].manifest.value, name);
        assert es[1..][i - 1] == es[i];
      }
      if Reaches(es[1..], name) {
        var i :| 0 <= i < |es[1..]| && es[1..][i].manifest.Some? && HasNode(es[1..][i].manifest.value, name);
        assert es[i + 1] == es[1..][i];
      }
    }
  }

  lemma NodeAtIsNode(t: Manifest, name: Str)
    ensures NodeAt(t, name).Some? <==> HasNode(t, name)
  {
    NodeInIsReached(t.entries, name);
  }

  lemma {:induction false} NodeInIsValid(base: Str, es: seq<Entry>, name: Str)
    requires forall i :: 0 <= i < |es| ==> ValidEntry(base, es[i])
    ensures NodeIn(es, name).Some? ==> ValidTree(NodeIn(es, name).value) && NodeIn(es, name).value.name == name
    decreases es
  {
    if es != [] {
      assert ValidEntry(base, es[0]);
      NodeInIsValid(base, es[1..], name);
      if es[0].manifest.Some? {
        var d := es[0].manifest.value;
        assert ValidEntries(base + es[0].name, d.entries) && d.name == base + es[0].name;
        NodeInIsValid(d.name, d.entries, name);
      }
    }
  }

  lemma NodeAtIsValid(t: Manifest, name: Str)
    requires ValidTree(t)
    ensures NodeAt(t, name).Some? ==> ValidTree(NodeAt(t, name).value) && NodeAt(t, name).value.name == name
  {
    NodeInIsValid(t.name, t.entries, name);
  }

  /** A node below a branch is that node of the whole tree. */
  lemma {:induction false} NodeInBranch(base: Str, es: seq<Entry>, i: nat, name: Str)
    requires ValidEntries(base, es) && i < |es| && es[i].manifest.Some? && NodeAt(es[i].manifest.value, name).Some?
    ensures NodeIn(es, name) == NodeAt(es[i].manifest.value, name)
  {
    hide Ordered;
    if i > 0 {
      assert ValidEntry(base, es[0]) && ValidEntry(base, es[i]);
      if es[0].manifest.Some? && NodeAt(es[0].manifest.value, name).Some? {
        NodeAtIsNode(es[0].manifest.value, name);
        NodeAtIsNode(es[i].manifest.value, name);
        NodeStarts(base, es[0], name);
        NodeStarts(base, es[i], name);
        OtherBranch(base, es, i);
        PrefixesAreNested(base + es[0].name, base + es[i].name, name);
        assert false;
      }
      TailIsValid(base, es);
      NodeInBranch(base, es[1..], i - 1, name);
    }
  }

  lemma TailIsValid(base: Str, es: seq<Entry>)
    requires ValidEntries(base, es) && es != []
    ensures ValidEntries(base, es[1..])
  {
  }

  lemma OtherBranch(base: Str, es: seq<Entry>, i: nat)
    requires ValidEntries(base, es) && 0 < i < |es| && es[0].manifest.Some? && es[i].manifest.Some?
    ensures Apart(base + es[0].name, base + es[i].name)
  {
    assert ValidEntry(base, es[0]) && ValidEntry(base, es[i]);
    ApartByHead(base, es[0].name, es[i].name);
  }

  lemma NodeOfBranch(t: Manifest, i: nat, name: Str)
    requires ValidTree(t) && i < |t.entries| && t.entries[i].manifest.Some?
    requires NodeAt(t.entries[i].manifest.value, name).Some?
    ensures NodeAt(t, name) == NodeAt(t.entries[i].manifest.value, name)
  {
    var f := t.entries[i];
    assert ValidEntry(t.name, f);
    NodeAtIsNode(f.manifest.value, name);
    NodeStarts(t.name, f, name);
    NodeInBranch(t.name, t.entries, i, name);
  }

  // ----- What a lookup reads -----

  /** Some lookup in the stored node reads the store under this name. A child embedded in its
      parent's snapshot, as a flush leaves it, is not read under its own name. */
  ghost predicate Reads(s: Blobs, m: Manifest, t: Manifest, name: Str)
    decreases t
  {
    exists i :: 0 <= i < |t.entries| && i < |m.entries| && t.entries[i].manifest.Some? &&
      (ReadsChild(t.name, m.entries[i], name) ||
       (Child(s, t.name, m.entries[i]).Some? &&
        Reads(s, Child(s, t.name, m.entries[i]).value, t.entries[i].manifest.value, name)))
  }

  predicate ReadsChild(base: Str, e: Entry, name: Str) {
    e.manifest.None? && base + e.name == name
  }

  /** Whatever is written under names that are not read, the node stands for the same tree. */
  lemma {:induction false} UnreadIsHidden(flat: bool, s: Blobs, s': Blobs, m: Manifest, t: Manifest)
    requires Rep(flat, s, m, t) && MixedTree(t)
    requires forall n :: Reads(s, m, t, n) ==> SameAt(s, s', n)
    ensures Rep(flat, s', m, t)
    decreases t
  {
    forall i | 0 <= i < |t.entries| ensures RepEntry(flat, s', t.name, m.entries[i], t.entries[i]) {
      var e, f := m.entries[i], t.entries[i];
      assert ValidEntry(t.name, f) && RepEntry(flat, s, t.name, e, f);
      if f.manifest.Some? {
        var c, d := Child(s, t.name, e).value, f.manifest.value;
        if e.manifest.None? {
          assert ReadsChild(t.name, e, t.name + e.name);
          assert Reads(s, m, t, t.name + e.name);
        }
        forall n | Reads(s, c, d, n) ensures SameAt(s, s', n) {
          assert Reads(s, m, t, n);
        }
        ValidIsMixed(d.name, d.entries);
        UnreadIsHidden(flat, s, s', c, d);
      }
    }
  }

  /** Only names of reachable nodes are read. */
  lemma {:induction false} UnreachedIsUnread(flat: bool, s: Blobs, m: Manifest, t: Manifest, name: Str)
    requires Rep(flat, s, m, t) && MixedTree(t) && !Reaches(t.entries, name)
    ensures !Reads(s, m, t, name)
    decreases t
  {
    forall i | 0 <= i < |t.entries| && t.entries[i].manifest.Some?
      ensures !ReadsChild(t.name, m.entries[i], name)
      ensures !Reads(s, Child(s, t.name, m.entries[i]).value, t.entries[i].manifest.value, name)
    {
      var e, f := m.entries[i], t.entries[i];
      assert ValidEntry(t.name, f) && RepEntry(flat, s, t.name, e, f);
      var d := f.manifest.value;
      ValidIsMixed(d.name, d.entries);
      UnreachedIsUnread(flat, s, Child(s, t.name, e).value, d, name);
    }
  }

  /** A loaded tree is answered from without reading the store. */
  lemma {:induction false} LoadedReadsNothing(s: Blobs, t: Manifest, name: Str)
    requires ValidTree(t)
    ensures !Reads(s, t, t, name)
    decreases t
  {
    forall i | 0 <= i < |t.entries| && t.entries[i].manifest.Some?
      ensures !Reads(s, t.entries[i].manifest.value, t.entries[i].manifest.value, name)
    {
      assert ValidEntry(t.name, t.entries[i]);
      LoadedReadsNothing(s, t.entries[i].manifest.value, name);
    }
  }
}
