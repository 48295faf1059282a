/** What a batch flush leaves of a loaded tree, and why nothing is lost. */
module Flush {
  import opened Bytes
  import opened Tree
  import opened Storage
  import opened Nodes

  const MAX_MANIFEST_DEPTH: nat := 3

  // ----- Heights -----

  function Height(es: seq<Entry>): nat
    decreases es
  {
    if es == [] then 0
    else
      var below := if es[0].manifest.Some? then 1 + Height(es[0].manifest.value.entries) else 0;
      var rest := Height(es[1..]);
      if below > rest then below else rest
  }

  lemma {:induction false} ChildIsLower(es: seq<Entry>, i: nat)
    requires i < |es| && es[i].manifest.Some?
    ensures Height(es[i].manifest.value.entries) < Height(es)
  {
    if i > 0 {
      ChildIsLower(es[1..], i - 1);
    }
  }

  /** A bound above every manifest on the stack; zero for the empty stack. */
  function StackHeight(stack: seq<Manifest>): nat {
    if stack == [] then 0
    else
      var h, rest := 1 + Height(stack[0].entries), StackHeight(stack[1..]);
      if h > rest then h else rest
  }

  lemma {:induction false} OnStack(stack: seq<Manifest>, i: nat)
    requires i < |stack|
    ensures Height(stack[i].entries) < StackHeight(stack)
  {
    if i > 0 {
      OnStack(stack[1..], i - 1);
    }
  }

  lemma {:induction false} StackIsLower(stack: seq<Manifest>, bound: nat)
    requires forall i :: 0 <= i < |stack| ==> Height(stack[i].entries) < bound
    ensures StackHeight(stack) <= bound
  {
    if stack != [] {
      StackIsLower(stack[1..], bound);
    }
  }

  // ----- A tree with some branches cut out -----

  /** `e` is `f`, except that some branches below it are gone and to be found in `cuts`. */
  predicate CutEntry(e: Entry, f: Entry, cuts: seq<Manifest>)
    decreases f
  {
    && e.name == f.name && e.etype == f.etype && e.ref == f.ref
    && if f.manifest.None? then e.manifest.None?
       else if e.manifest.None? then f.manifest.value in cuts
       else
         var c, d := e.manifest.value, f.manifest.value;
         && c.name == d.name && c.mutable == d.mutable && |c.entries| == |d.entries|
         && forall i :: 0 <= i < |d.entries| ==> CutEntry(c.entries[i], d.entries[i], cuts)
  }

  predicate Cut(m: Manifest, t: Manifest, cuts: seq<Manifest>) {
    && m.name == t.name && m.mutable == t.mutable && |m.entries| == |t.entries|
    && forall i :: 0 <= i < |t.entries| ==> CutEntry(m.entries[i], t.entries[i], cuts)
  }

  lemma {:induction false} CutSelf(f: Entry, cuts: seq<Manifest>)
    ensures CutEntry(f, f, cuts)
    decreases f
  {
    if f.manifest.Some? {
      var d := f.manifest.value;
      forall i | 0 <= i < |d.entries| ensures CutEntry(d.entries[i], d.entries[i], cuts) {
        CutSelf(d.entries[i], cuts);
      }
    }
  }

  lemma {:induction false} CutMore(e: Entry, f: Entry, cuts: seq<Manifest>, cuts': seq<Manifest>)
    requires CutEntry(e, f, cuts) && forall c :: c in cuts ==> c in cuts'
    ensures CutEntry(e, f, cuts')
    decreases f
  {
    if f.manifest.Some? && e.manifest.Some? {
      var c, d := e.manifest.value, f.manifest.value;
      forall i | 0 <= i < |d.entries| ensures CutEntry(c.entries[i], d.entries[i], cuts') {
        CutMore(c.entries[i], d.entries[i], cuts, cuts');
      }
    }
  }

  lemma CutMoreTree(m: Manifest, t: Manifest, cuts: seq<Manifest>, cuts': seq<Manifest>)
    requires Cut(m, t, cuts) && forall c :: c in cuts ==> c in cuts'
    ensures Cut(m, t, cuts')
  {
    forall i | 0 <= i < |t.entries| ensures CutEntry(m.entries[i], t.entries[i], cuts') {
      CutMore(m.entries[i], t.entries[i], cuts, cuts');
    }
  }

  /** The tree is low enough for a flush to store it without a cut. */
  predicate Shallow(t: Manifest) {
    Height(t.entries) <= MAX_MANIFEST_DEPTH
  }

  /** Every node of the tree is stored under its own name, with everything below it embedded. */
  predicate Whole(s: Blobs, t: Manifest)
    decreases t
  {
    && t.name in s && s[t.name] == t
    && forall i :: 0 <= i < |t.entries| && t.entries[i].manifest.Some? ==> Whole(s, t.entries[i].manifest.value)
  }

  lemma {:induction false} WholeFrame(s: Blobs, s': Blobs, t: Manifest)
    requires Whole(s, t) && forall n :: HasNode(t, n) ==> SameAt(s, s', n)
    ensures Whole(s', t)
    decreases t
  {
    assert HasNode(t, t.name);
    forall i | 0 <= i < |t.entries| && t.entries[i].manifest.Some? ensures Whole(s', t.entries[i].manifest.value) {
      var d := t.entries[i].manifest.value;
      forall n | HasNode(d, n) ensures SameAt(s, s', n) {
        NodeBelow(t.entries, i, n);
      }
      WholeFrame(s, s', d);
    }
  }

  /** The manifest of this name is stored and represents the tree; a shallow tree is stored
      whole. */
  predicate Saved(s: Blobs, t: Manifest) {
    t.name in s && Rep(false, s, s[t.name], t) && (Shallow(t) ==> Whole(s, t))
  }

  /** Once every cut branch is saved, what is left of the tree represents the tree. */
  lemma {:induction false} CutRep(s: Blobs, base: Str, e: Entry, f: Entry, cuts: seq<Manifest>)
    requires CutEntry(e, f, cuts) && ValidEntry(base, f)
    requires forall i :: 0 <= i < |cuts| ==> Saved(s, cuts[i])
    ensures RepEntry(false, s, base, e, f)
    decreases f
  {
    if f.manifest.Some? {
      var d := f.manifest.value;
      if e.manifest.Some? {
        var c := e.manifest.value;
        forall i | 0 <= i < |d.entries| ensures RepEntry(false, s, d.name, c.entries[i], d.entries[i]) {
          assert ValidEntry(d.name, d.entries[i]);
          CutRep(s, d.name, c.entries[i], d.entries[i], cuts);
        }
      } else {
        assert Saved(s, d);
      }
    }
  }

  lemma CutRepTree(s: Blobs, m: Manifest, t: Manifest, cuts: seq<Manifest>)
    requires Cut(m, t, cuts) && ValidTree(t)
    requires forall i :: 0 <= i < |cuts| ==> Saved(s, cuts[i])
    ensures Rep(false, s, m, t)
  {
    forall i | 0 <= i < |t.entries| ensures RepEntry(false, s, t.name, m.entries[i], t.entries[i]) {
      assert ValidEntry(t.name, t.entries[i]);
      CutRep(s, t.name, m.entries[i], t.entries[i], cuts);
    }
  }

  // ----- The work stack -----

  /** Stacked branches are whole trees whose names do not extend each other. */
  predicate Stackable(stack: seq<Manifest>) {
    && (forall i :: 0 <= i < |stack| ==> ValidTree(stack[i]))
    && forall i, j :: 0 <= i < j < |stack| ==> Apart(stack[i].name, stack[j].name)
  }

  /** Every node of `c` is a node strictly below the root of `t`. */
  ghost predicate Within(c: Manifest, t: Manifest) {
    forall n :: HasNode(c, n) ==> Reaches(t.entries, n) && NodeAt(t, n) == NodeAt(c, n)
  }

  /** The branch `c` lies strictly below `t`. */
  ghost predicate IsBelow(c: Manifest, t: Manifest) {
    t.name < c.name && Height(c.entries) < Height(t.entries) && Within(c, t)
  }

  /** Every manifest of `cuts` lies strictly below `t`. */
  ghost predicate Below(cuts: seq<Manifest>, t: Manifest) {
    forall i :: 0 <= i < |cuts| ==> IsBelow(cuts[i], t)
  }

  /** No manifest on the stack has a name that `n` extends. */
  predicate Clear(stack: seq<Manifest>, n: Str) {
    forall i :: 0 <= i < |stack| ==> !(stack[i].name <= n)
  }

  /** A tree on the stack has a node of this name. */
  predicate InStack(stack: seq<Manifest>, n: Str) {
    exists i :: 0 <= i < |stack| && HasNode(stack[i], n)
  }

  /** Nothing has changed but under names of nodes of `t`. */
  ghost predicate OnlyNodes(s: Blobs, s': Blobs, t: Manifest) {
    forall n :: !HasNode(t, n) ==> SameAt(s, s', n)
  }

  /** Nothing has changed but under names of nodes of the stacked trees. */
  ghost predicate OnlyStack(s: Blobs, s': Blobs, stack: seq<Manifest>) {
    forall n :: !InStack(stack, n) ==> SameAt(s, s', n)
  }

  lemma NodesStart(t: Manifest, n: Str)
    requires ValidTree(t) && HasNode(t, n)
    ensures t.name <= n
  {
    if n != t.name {
      ValidIsMixed(t.name, t.entries);
      ReachedNames(t.name, t.entries, n);
    }
  }

  lemma ClearIsNotInStack(stack: seq<Manifest>, n: Str)
    requires Stackable(stack) && Clear(stack, n)
    ensures !InStack(stack, n)
  {
    forall i | 0 <= i < |stack| ensures !HasNode(stack[i], n) {
      if HasNode(stack[i], n) {
        NodesStart(stack[i], n);
      }
    }
  }

  /** Trees with names apart have no node in common. */
  lemma NoCommonNode(c: Manifest, t: Manifest, n: Str)
    requires ValidTree(c) && ValidTree(t) && Apart(c.name, t.name) && HasNode(c, n)
    ensures !HasNode(t, n)
  {
    NodesStart(c, n);
    if HasNode(t, n) {
      NodesStart(t, n);
      PrefixesAreNested(c.name, t.name, n);
    }
  }

  lemma WholeBeside(s: Blobs, s': Blobs, t: Manifest, c: Manifest)
    requires Whole(s, t) && ValidTree(t) && ValidTree(c) && Apart(t.name, c.name) && OnlyNodes(s, s', c)
    ensures Whole(s', t)
  {
    forall n | HasNode(t, n) ensures SameAt(s, s', n) {
      NoCommonNode(t, c, n);
    }
    WholeFrame(s, s', t);
  }

  lemma StackBelow(stack: seq<Manifest>, cuts: seq<Manifest>, t: Manifest)
    requires Stackable(stack) && Stackable(cuts) && Below(cuts, t)
    requires forall i :: 0 <= i < |stack| ==> Apart(stack[i].name, t.name)
    ensures Stackable(stack + cuts)
  {
    forall i, j | 0 <= i < |stack| && 0 <= j < |cuts| ensures Apart(stack[i].name, cuts[j].name) {
      assert IsBelow(cuts[j], t);
      ApartUnderExtension(stack[i].name, t.name, stack[i].name, cuts[j].name);
    }
  }

  // ----- The loop over one node -----

  /** The first `i` entries have been flushed, the others are untouched. */
  predicate CutUpTo(m: Manifest, t: Manifest, cuts: seq<Manifest>, i: nat) {
    && m.name == t.name && m.mutable == t.mutable && |m.entries| == |t.entries|
    && (forall j :: 0 <= j < i && j < |t.entries| ==> CutEntry(m.entries[j], t.entries[j], cuts))
    && forall j :: i <= j < |t.entries| ==> m.entries[j] == t.entries[j]
  }

  /** The branches of `t` from `i` on are apart from everything cut so far. */
  predicate Ahead(cuts: seq<Manifest>, t: Manifest, i: nat) {
    forall k, j :: 0 <= k < |cuts| && i <= j < |t.entries| && t.entries[j].manifest.Some? ==>
      Apart(cuts[k].name, t.entries[j].manifest.value.name)
  }

  /** The branches of the first `i` entries are stored whole. */
  predicate WholeUpTo(s: Blobs, t: Manifest, i: nat) {
    forall j :: 0 <= j < i && j < |t.entries| && t.entries[j].manifest.Some? ==> Whole(s, t.entries[j].manifest.value)
  }

  /** At the depth limit: one child cut out, the rest as it was. */
  lemma CutOut(m: Manifest, t: Manifest, i: nat)
    requires ValidTree(t) && i < |t.entries| && t.entries[i].etype.IntermediateEntry?
    requires m == t.(entries := t.entries[i := t.entries[i].(manifest := None)])
    ensures t.entries[i].manifest.Some?
    ensures var cuts := [t.entries[i].manifest.value]; Cut(m, t, cuts) && Stackable(cuts) && Below(cuts, t)
    ensures Height(t.entries) > 0
  {
    var f := t.entries[i];
    assert ValidEntry(t.name, f);
    ChildIsLower(t.entries, i);
    ChildIsBelow(t, i);
    forall j | 0 <= j < |t.entries| ensures CutEntry(m.entries[j], t.entries[j], [f.manifest.value]) {
      CutSelf(t.entries[j], [f.manifest.value]);
    }
  }

  lemma ChildIsBelow(t: Manifest, i: nat)
    requires ValidTree(t) && i < |t.entries| && t.entries[i].manifest.Some?
    ensures IsBelow(t.entries[i].manifest.value, t) && ValidTree(t.entries[i].manifest.value)
  {
    var d := t.entries[i].manifest.value;
    assert ValidEntry(t.name, t.entries[i]);
    ChildIsLower(t.entries, i);
    forall n | HasNode(d, n) ensures Reaches(t.entries, n) && NodeAt(t, n) == NodeAt(d, n) {
      NodeBelow(t.entries, i, n);
      NodeAtIsNode(d, n);
      NodeOfBranch(t, i, n);
    }
  }

  lemma BelowIsTransitive(c: Manifest, d: Manifest, t: Manifest)
    requires IsBelow(c, d) && IsBelow(d, t)
    ensures IsBelow(c, t)
  {
    LongerPrefix(t.name, d.name, c.name);
    forall n | HasNode(c, n) ensures Reaches(t.entries, n) && NodeAt(t, n) == NodeAt(c, n) {
      assert Reaches(d.entries, n) && HasNode(d, n);
    }
  }

  lemma CutKeep(m: Manifest, t: Manifest, cuts: seq<Manifest>, i: nat)
    requires CutUpTo(m, t, cuts, i) && Ahead(cuts, t, i) && i < |t.entries| && t.entries[i].manifest.None?
    ensures CutUpTo(m, t, cuts, i + 1) && Ahead(cuts, t, i + 1)
  {
  }

  lemma CutDone(m: Manifest, t: Manifest, cuts: seq<Manifest>)
    requires CutUpTo(m, t, cuts, |t.entries|)
    ensures Cut(m, t, cuts)
  {
  }

  /** One more child flushed. */
  lemma CutNext(m: Manifest, t: Manifest, cuts: seq<Manifest>, i: nat, child': Manifest, more: seq<Manifest>)
    requires CutUpTo(m, t, cuts, i) && Stackable(cuts) && Below(cuts, t) && Ahead(cuts, t, i) && ValidTree(t)
    requires i < |t.entries| && t.entries[i].etype.IntermediateEntry? && t.entries[i].manifest.Some?
    requires Stackable(more) && Below(more, t.entries[i].manifest.value)
    ensures Stackable(cuts + more) && Below(cuts + more, t) && Ahead(cuts + more, t, i + 1)
    ensures Cut(child', t.entries[i].manifest.value, more) ==>
      CutUpTo(m.(entries := m.entries[i := m.entries[i].(manifest := Some(child'))]), t, cuts + more, i + 1)
  {
    hide Height, Within;
    var f := t.entries[i];
    var d, all := f.manifest.value, cuts + more;
    assert ValidEntry(t.name, f);
    StackBelow(cuts, more, d);
    ChildIsBelow(t, i);
    forall k | 0 <= k < |all| ensures IsBelow(all[k], t) {
      if k >= |cuts| {
        assert all[k] == more[k - |cuts|];
        BelowIsTransitive(all[k], d, t);
      }
    }
    forall k, j | 0 <= k < |all| && i + 1 <= j < |t.entries| && t.entries[j].manifest.Some?
      ensures Apart(all[k].name, t.entries[j].manifest.value.name)
    {
      if k >= |cuts| {
        var g := t.entries[j];
        assert ValidEntry(t.name, g) && all[k] == more[k - |cuts|];
        ApartByHead(t.name, f.name, g.name);
        ApartUnderExtension(d.name, g.manifest.value.name, all[k].name, g.manifest.value.name);
      }
    }
    if Cut(child', d, more) {
      CutMoreTree(child', d, more, all);
      forall j | 0 <= j < i ensures CutEntry(m.entries[j], t.entries[j], all) {
        CutMore(m.entries[j], t.entries[j], cuts, all);
      }
    }
  }

  /** The branch at `i` has been stored: what was stored of the earlier ones is still there. */
  lemma WholeNext(s: Blobs, s': Blobs, t: Manifest, i: nat)
    requires ValidTree(t) && i < |t.entries| && t.entries[i].manifest.Some? && WholeUpTo(s, t, i)
    requires OnlyNodes(s, s', t.entries[i].manifest.value)
    ensures WholeUpTo(s', t, i)
    ensures Whole(s', t.entries[i].manifest.value) ==> WholeUpTo(s', t, i + 1)
  {
    hide Whole;
    forall j | 0 <= j < i && t.entries[j].manifest.Some? ensures Whole(s', t.entries[j].manifest.value) {
      var f, g := t.entries[i], t.entries[j];
      assert ValidEntry(t.name, f) && ValidEntry(t.name, g);
      ApartByHead(t.name, g.name, f.name);
      WholeBeside(s, s', g.manifest.value, f.manifest.value);
    }
  }

  lemma WholeNode(s: Blobs, t: Manifest)
    requires ValidTree(t) && WholeUpTo(s, t, |t.entries|)
    ensures Whole(s[t.name := t], t)
  {
    var s' := s[t.name := t];
    forall j | 0 <= j < |t.entries| && t.entries[j].manifest.Some? ensures Whole(s', t.entries[j].manifest.value) {
      var d := t.entries[j].manifest.value;
      ChildIsBelow(t, j);
      forall n | HasNode(d, n) ensures SameAt(s, s', n) {
        NodesStart(d, n);
      }
      WholeFrame(s, s', d);
    }
  }

  lemma SameAfterStore(s0: Blobs, s: Blobs, m: Manifest, t: Manifest)
    requires OnlyNodes(s0, s, t) && m.name == t.name
    ensures OnlyNodes(s0, s[m.name := m], t)
  {
    var s' := s[m.name := m];
    forall n | !HasNode(t, n) ensures SameAt(s0, s', n) {
      assert SameAt(s0, s, n);
    }
  }

  lemma SameAfterChild(s0: Blobs, s: Blobs, s': Blobs, t: Manifest, d: Manifest)
    requires OnlyNodes(s0, s, t) && OnlyNodes(s, s', d) && Within(d, t)
    ensures OnlyNodes(s0, s', t)
  {
    forall n | !HasNode(t, n) ensures SameAt(s0, s', n) {
      assert !HasNode(d, n);
      assert SameAt(s0, s, n) && SameAt(s, s', n);
    }
  }

  // ----- Which nodes are stored -----

  /** Under this name the node is stored, but for the cuts. */
  predicate StoredNode(s: Blobs, o: Option<Manifest>, n: Str, cuts: seq<Manifest>) {
    o.Some? && n in s && Cut(s[n], o.value, cuts)
  }

  /** Whatever has changed is a node of the tree, stored but for the cuts. */
  ghost predicate StoredNodes(s: Blobs, s': Blobs, t: Manifest, cuts: seq<Manifest>) {
    forall n :: SameAt(s, s', n) || StoredNode(s', NodeAt(t, n), n, cuts)
  }

  lemma StoredMore(s: Blobs, s': Blobs, t: Manifest, cuts: seq<Manifest>, cuts': seq<Manifest>)
    requires StoredNodes(s, s', t, cuts) && forall c :: c in cuts ==> c in cuts'
    ensures StoredNodes(s, s', t, cuts')
  {
    hide Cut, NodeAt;
    forall n ensures SameAt(s, s', n) || StoredNode(s', NodeAt(t, n), n, cuts') {
      if !SameAt(s, s', n) {
        assert StoredNode(s', NodeAt(t, n), n, cuts);
        CutMoreTree(s'[n], NodeAt(t, n).value, cuts, cuts');
      }
    }
  }

  lemma StoredChild(s0: Blobs, s: Blobs, s': Blobs, t: Manifest, i: nat, cuts: seq<Manifest>, more: seq<Manifest>)
    requires ValidTree(t) && i < |t.entries| && t.entries[i].manifest.Some?
    requires StoredNodes(s0, s, t, cuts) && StoredNodes(s, s', t.entries[i].manifest.value, more)
    ensures StoredNodes(s0, s', t, cuts + more)
  {
    hide Cut, NodeAt;
    var d := t.entries[i].manifest.value;
    forall n ensures SameAt(s0, s', n) || StoredNode(s', NodeAt(t, n), n, cuts + more) {
      if !SameAt(s, s', n) {
        assert StoredNode(s', NodeAt(d, n), n, more);
        NodeOfBranch(t, i, n);
        CutMoreTree(s'[n], NodeAt(t, n).value, more, cuts + more);
      } else if !SameAt(s0, s, n) {
        assert StoredNode(s, NodeAt(t, n), n, cuts);
        CutMoreTree(s'[n], NodeAt(t, n).value, cuts, cuts + more);
      }
    }
  }

  lemma StoredRoot(s0: Blobs, s: Blobs, m: Manifest, t: Manifest, cuts: seq<Manifest>)
    requires StoredNodes(s0, s, t, cuts) && Cut(m, t, cuts)
    ensures StoredNodes(s0, s[m.name := m], t, cuts)
  {
    hide Cut;
    var s' := s[m.name := m];
    assert m.name == t.name by { CutName(m, t, cuts); }
    forall n ensures SameAt(s0, s', n) || StoredNode(s', NodeAt(t, n), n, cuts) {
      if n != t.name && !SameAt(s0, s, n) {
        assert StoredNode(s, NodeAt(t, n), n, cuts);
      }
    }
  }

  lemma CutName(m: Manifest, t: Manifest, cuts: seq<Manifest>)
    requires Cut(m, t, cuts)
    ensures m.name == t.name
  {
  }

  /** The node of this name in the stacked trees. */
  function StackAt(stack: seq<Manifest>, n: Str): Option<Manifest> {
    if stack == [] then None
    else if NodeAt(stack[0], n).Some? then NodeAt(stack[0], n)
    else StackAt(stack[1..], n)
  }

  lemma {:induction false} StackAtIsNode(stack: seq<Manifest>, n: Str)
    ensures StackAt(stack, n).Some? <==> InStack(stack, n)
  {
    if stack != [] {
      NodeAtIsNode(stack[0], n);
      StackAtIsNode(stack[1..], n);
      if InStack(stack, n) && !HasNode(stack[0], n) {
        var i :| 0 <= i < |stack| && HasNode(stack[i], n);
        assert stack[1..][i - 1] == stack[i];
      }
    }
  }

  lemma {:induction false} StackAtIs(stack: seq<Manifest>, i: nat, n: Str)
    requires Stackable(stack) && i < |stack| && HasNode(stack[i], n)
    ensures StackAt(stack, n) == NodeAt(stack[i], n)
  {
    NodeAtIsNode(stack[i], n);
    if i > 0 {
      NoCommonNode(stack[i], stack[0], n);
      NodeAtIsNode(stack[0], n);
      StackAtIs(stack[1..], i - 1, n);
    }
  }

  lemma {:induction false} StackAtIsValid(stack: seq<Manifest>, n: Str)
    requires forall i :: 0 <= i < |stack| ==> ValidTree(stack[i])
    ensures StackAt(stack, n).Some? ==> ValidTree(StackAt(stack, n).value) && StackAt(stack, n).value.name == n
  {
    if stack != [] {
      NodeAtIsValid(stack[0], n);
      StackAtIsValid(stack[1..], n);
    }
  }

  /** Whatever has changed is a node of a stacked tree, stored but for the cuts. */
  ghost predicate StoredStack(s: Blobs, s': Blobs, stack: seq<Manifest>, cuts: seq<Manifest>) {
    forall n :: SameAt(s, s', n) || StoredNode(s', StackAt(stack, n), n, cuts)
  }

  lemma StoredStackStep(s0: Blobs, s: Blobs, s': Blobs, now: seq<Manifest>, i: nat, cuts: seq<Manifest>, more: seq<Manifest>)
    requires Stackable(now) && i < |now|
    requires StoredStack(s0, s, now, cuts) && StoredNodes(s, s', now[i], more)
    ensures StoredStack(s0, s', now, cuts + more)
  {
    hide Cut, NodeAt, StackAt, Stackable;
    forall n ensures SameAt(s0, s', n) || StoredNode(s', StackAt(now, n), n, cuts + more) {
      if !SameAt(s, s', n) {
        assert StoredNode(s', NodeAt(now[i], n), n, more);
        NodeAtIsNode(now[i], n);
        StackAtIs(now, i, n);
        CutMoreTree(s'[n], StackAt(now, n).value, more, cuts + more);
      } else if !SameAt(s0, s, n) {
        assert StoredNode(s, StackAt(now, n), n, cuts);
        CutMoreTree(s'[n], StackAt(now, n).value, cuts, cuts + more);
      }
    }
  }

  /** Under this name the node is stored with some branches cut out. */
  ghost predicate CutNode(s: Blobs, o: Option<Manifest>, n: Str) {
    exists cuts: seq<Manifest> :: StoredNode(s, o, n, cuts)
  }

  /** Whatever has changed is a node of a stacked tree, also if the flush has stopped halfway. */
  ghost predicate CutStack(s: Blobs, s': Blobs, stack: seq<Manifest>) {
    forall n :: SameAt(s, s', n) || CutNode(s', StackAt(stack, n), n)
  }

  lemma StoredIsCut(s: Blobs, s': Blobs, stack: seq<Manifest>, cuts: seq<Manifest>)
    requires StoredStack(s, s', stack, cuts)
    ensures CutStack(s, s', stack)
  {
    hide StoredNode;
    forall n ensures SameAt(s, s', n) || CutNode(s', StackAt(stack, n), n) {
      assert SameAt(s, s', n) || StoredNode(s', StackAt(stack, n), n, cuts);
    }
  }

  /** A later round does to nodes of the first what it does to its own. */
  lemma CutRounds(s0: Blobs, s: Blobs, s': Blobs, now: seq<Manifest>, next: seq<Manifest>)
    requires Stackable(now) && Stackable(next) && NextRound(now, next)
    requires CutStack(s0, s, now) && CutStack(s, s', next)
    ensures CutStack(s0, s', now)
  {
    hide Cut, StackAt, Stackable, NextRound;
    forall n ensures SameAt(s0, s', n) || CutNode(s', StackAt(now, n), n) {
      if !SameAt(s, s', n) {
        assert CutNode(s', StackAt(next, n), n);
        NextNode(now, next, n);
      } else if !SameAt(s0, s, n) {
        SameCut(s, s', StackAt(now, n), n);
      }
    }
  }

  lemma NothingChanged(s: Blobs, stack: seq<Manifest>)
    ensures OnlyStack(s, s, stack) && CutStack(s, s, stack) && SavedStack(s, s, stack) && StoredStack(s, s, stack, [])
  {
  }

  lemma SameCut(s: Blobs, s': Blobs, o: Option<Manifest>, n: Str)
    requires CutNode(s, o, n) && SameAt(s, s', n)
    ensures CutNode(s', o, n)
  {
    hide Cut;
    var cuts: seq<Manifest> :| StoredNode(s, o, n, cuts);
    assert StoredNode(s', o, n, cuts);
  }

  /** Whatever has changed is a node of a stacked tree, and what is stored stands for it. */
  ghost predicate SavedStack(s: Blobs, s': Blobs, stack: seq<Manifest>) {
    forall n :: SameAt(s, s', n) || SavedNode(s', StackAt(stack, n), n)
  }

  predicate SavedNode(s: Blobs, o: Option<Manifest>, n: Str) {
    o.Some? && n in s && Rep(false, s, s[n], o.value)
  }

  lemma StackIsSaved(s0: Blobs, s: Blobs, s': Blobs, now: seq<Manifest>, next: seq<Manifest>)
    requires Stackable(now) && Stackable(next) && NextRound(now, next)
    requires StoredStack(s0, s, now, next) && SavedStack(s, s', next)
    requires forall k :: 0 <= k < |next| ==> Saved(s', next[k])
    ensures SavedStack(s0, s', now)
  {
    hide Cut, NodeAt, StackAt, Stackable, Saved, Rep;
    forall n ensures SameAt(s0, s', n) || SavedNode(s', StackAt(now, n), n) {
      if !SameAt(s, s', n) {
        assert SavedNode(s', StackAt(next, n), n);
        NextNode(now, next, n);
      } else if !SameAt(s0, s, n) {
        assert StoredNode(s, StackAt(now, n), n, next);
        StackAtIsValid(now, n) by { StackedIsValid(now); }
        CutRepTree(s', s'[n], StackAt(now, n).value, next);
      }
    }
  }

  lemma StackedIsValid(stack: seq<Manifest>)
    requires Stackable(stack)
    ensures forall i :: 0 <= i < |stack| ==> ValidTree(stack[i])
  {
  }

  /** A node of the next round is that node of this round. */
  lemma NextNode(now: seq<Manifest>, next: seq<Manifest>, n: Str)
    requires Stackable(now) && Stackable(next) && NextRound(now, next) && StackAt(next, n).Some?
    ensures StackAt(now, n) == StackAt(next, n)
  {
    hide ValidTree, Height, IsBelow, Shallow, NodeAt, StackAt, HasNode, Stackable;
    StackAtIsNode(next, n);
    var k :| 0 <= k < |next| && HasNode(next[k], n);
    assert HasAncestor(next[k], now);
    var j :| 0 <= j < |now| && IsBelow(next[k], now[j]) && !Shallow(now[j]);
    StackAtIs(next, k, n);
    SameNodeBelow(next[k], now[j], n);
    StackAtIs(now, j, n);
  }

  lemma SameNodeBelow(c: Manifest, t: Manifest, n: Str)
    requires IsBelow(c, t) && HasNode(c, n)
    ensures HasNode(t, n) && NodeAt(t, n) == NodeAt(c, n)
  {
  }

  // ----- Emptying the work stack -----

  /** Every manifest of `next` lies strictly below one of `now` that was cut. */
  ghost predicate NextRound(now: seq<Manifest>, next: seq<Manifest>) {
    forall k :: 0 <= k < |next| ==> HasAncestor(next[k], now)
  }

  ghost predicate HasAncestor(c: Manifest, now: seq<Manifest>) {
    exists j :: 0 <= j < |now| && IsBelow(c, now[j]) && !Shallow(now[j])
  }

  /** A round that stacked `next` while storing `now` has made the stack lower. */
  lemma NextRoundIsLower(now: seq<Manifest>, next: seq<Manifest>)
    requires NextRound(now, next) && next != []
    ensures StackHeight(next) < StackHeight(now)
  {
    hide Height, Within;
    forall k | 0 <= k < |next| ensures Height(next[k].entries) < StackHeight(now) - 1 {
      assert HasAncestor(next[k], now);
      var j :| 0 <= j < |now| && IsBelow(next[k], now[j]) && !Shallow(now[j]);
      OnStack(now, j);
    }
    assert Height(next[0].entries) < StackHeight(now) - 1;
    StackIsLower(next, StackHeight(now) - 1);
  }

  /** What the next round writes cannot overwrite what this round stored. */
  lemma NextRoundIsClear(now: seq<Manifest>, next: seq<Manifest>, i: nat)
    requires Stackable(now) && NextRound(now, next) && i < |now|
    ensures Clear(next, now[i].name)
  {
    hide ValidTree, Height, Within;
    forall k | 0 <= k < |next| ensures !(next[k].name <= now[i].name) {
      assert HasAncestor(next[k], now);
      var j :| 0 <= j < |now| && IsBelow(next[k], now[j]) && !Shallow(now[j]);
      LongerPrefix(now[j].name, next[k].name, now[i].name);
    }
  }

  /** It writes to nodes of this round's trees only, and to none of a shallow one. */
  lemma NextRoundIsWithin(now: seq<Manifest>, next: seq<Manifest>, n: Str)
    requires NextRound(now, next) && InStack(next, n)
    ensures InStack(now, n)
    ensures Stackable(now) ==> forall i :: 0 <= i < |now| && Shallow(now[i]) ==> !HasNode(now[i], n)
  {
    hide ValidTree, Height, Within, HasNode, IsBelow, Shallow;
    var k :| 0 <= k < |next| && HasNode(next[k], n);
    assert HasAncestor(next[k], now);
    var j :| 0 <= j < |now| && IsBelow(next[k], now[j]) && !Shallow(now[j]);
    NodeOfBelow(next[k], now[j], n);
    if Stackable(now) {
      forall i | 0 <= i < |now| && Shallow(now[i]) ensures !HasNode(now[i], n) {
        NoCommonNode(now[j], now[i], n);
      }
    }
  }

  lemma NodeOfBelow(c: Manifest, t: Manifest, n: Str)
    requires IsBelow(c, t) && HasNode(c, n)
    ensures HasNode(t, n)
  {
  }

  lemma LongerPrefix(a: Str, b: Str, n: Str)
    requires a < b
    ensures b <= n ==> a < n
  {
    if b <= n {
      assert a == b[..|a|] == n[..|a|];
    }
  }

  /** One more stacked manifest stored. */
  lemma RoundStep(now: seq<Manifest>, next: seq<Manifest>, more: seq<Manifest>, i: nat)
    requires Stackable(now) && i < |now| && Stackable(next) && NextRound(now[..i], next)
    requires Stackable(more) && Below(more, now[i]) && (Shallow(now[i]) ==> more == [])
    ensures Stackable(next + more) && NextRound(now[..i + 1], next + more)
    ensures forall j :: 0 <= j < i ==> Apart(now[j].name, now[i].name)
  {
    hide ValidTree, Height, Within;
    var before, after := now[..i], now[..i + 1];
    forall k | 0 <= k < |next| ensures Apart(next[k].name, now[i].name) {
      assert HasAncestor(next[k], before);
      var j :| 0 <= j < |before| && IsBelow(next[k], before[j]) && !Shallow(before[j]);
      ApartUnderExtension(now[j].name, now[i].name, next[k].name, now[i].name);
    }
    StackBelow(next, more, now[i]);
    forall k | 0 <= k < |next + more| ensures HasAncestor((next + more)[k], after) {
      if k < |next| {
        assert HasAncestor(next[k], before);
        var j :| 0 <= j < |before| && IsBelow(next[k], before[j]) && !Shallow(before[j]);
        assert IsBelow((next + more)[k], after[j]);
      } else {
        assert IsBelow((next + more)[k], after[i]);
      }
    }
  }

  /** The manifests of a round as they were stored. */
  predicate StoredRound(s: Blobs, now: seq<Manifest>, i: nat, cuts: seq<Manifest>) {
    forall j :: 0 <= j < i && j < |now| ==> StoredTree(s, now[j], cuts)
  }

  predicate StoredTree(s: Blobs, t: Manifest, cuts: seq<Manifest>) {
    t.name in s && Cut(s[t.name], t, cuts) && (Shallow(t) ==> Whole(s, t))
  }

  lemma StoredStep(s: Blobs, s': Blobs, now: seq<Manifest>, i: nat, cuts: seq<Manifest>, more: seq<Manifest>)
    requires Stackable(now) && i < |now| && StoredRound(s, now, i, cuts)
    requires OnlyNodes(s, s', now[i])
    requires StoredTree(s', now[i], more)
    ensures StoredRound(s', now, i + 1, cuts + more)
  {
    hide Cut, Whole, Height;
    forall j | 0 <= j <= i ensures StoredTree(s', now[j], cuts + more) {
      if j < i {
        assert StoredTree(s, now[j], cuts);
        NoCommonNode(now[j], now[i], now[j].name);
        assert SameAt(s, s', now[j].name);
        CutMoreTree(s'[now[j].name], now[j], cuts, cuts + more);
        if Shallow(now[j]) {
          WholeBeside(s, s', now[j], now[i]);
        }
      } else {
        CutMoreTree(s'[now[j].name], now[j], more, cuts + more);
      }
    }
  }

  /** When the cuts of a round are saved, so is the round. */
  lemma RoundIsSaved(s: Blobs, s': Blobs, now: seq<Manifest>, next: seq<Manifest>)
    requires Stackable(now) && Stackable(next) && NextRound(now, next) && StoredRound(s, now, |now|, next)
    requires OnlyStack(s, s', next)
    requires forall k :: 0 <= k < |next| ==> Saved(s', next[k])
    ensures forall j :: 0 <= j < |now| ==> Saved(s', now[j])
  {
    hide Cut, Whole, Height;
    forall j | 0 <= j < |now| ensures Saved(s', now[j]) {
      assert StoredTree(s, now[j], next);
      NextRoundIsClear(now, next, j);
      ClearIsNotInStack(next, now[j].name);
      assert SameAt(s, s', now[j].name);
      CutRepTree(s', s'[now[j].name], now[j], next);
      if Shallow(now[j]) {
        forall n | HasNode(now[j], n) ensures SameAt(s, s', n) {
          if InStack(next, n) {
            NextRoundIsWithin(now, next, n);
          }
        }
        WholeFrame(s, s', now[j]);
      }
    }
  }

  lemma StackStep(s0: Blobs, s: Blobs, s': Blobs, now: seq<Manifest>, i: nat)
    requires i < |now| && OnlyNodes(s, s', now[i]) && OnlyStack(s0, s, now)
    ensures OnlyStack(s0, s', now)
  {
    forall n | !InStack(now, n) ensures SameAt(s0, s', n) {
      assert SameAt(s0, s, n) && SameAt(s, s', n);
    }
  }

  lemma StackRound(s0: Blobs, s: Blobs, s': Blobs, now: seq<Manifest>, next: seq<Manifest>)
    requires NextRound(now, next) && OnlyStack(s0, s, now) && OnlyStack(s, s', next)
    ensures OnlyStack(s0, s', now)
  {
    forall n | !InStack(now, n) ensures SameAt(s0, s', n) {
      if InStack(next, n) {
        NextRoundIsWithin(now, next, n);
      }
      assert SameAt(s0, s, n) && SameAt(s, s', n);
    }
  }
}
