/** Exactly which nodes a flush stores under their own names, and with what below them. */
module Snapshots {
  import opened Bytes
  import opened Tree
  import opened Storage
  import opened Nodes
  import opened Flush

  /** The first entry with a loaded child. */
  function FirstBranch(es: seq<Entry>): (j: nat)
    ensures j <= |es| && (j < |es| ==> es[j].manifest.Some?)
    ensures forall k :: 0 <= k < j ==> es[k].manifest.None?
  {
    if es == [] then 0 else if es[0].manifest.Some? then 0 else 1 + FirstBranch(es[1..])
  }

  lemma FirstBranchIsUnique(es: seq<Entry>, j: nat)
    requires j <= |es| && (j < |es| ==> es[j].manifest.Some?)
    requires forall k :: 0 <= k < j ==> es[k].manifest.None?
    ensures FirstBranch(es) == j
  {
  }

  // ----- One pass over a tree -----

  /** What a pass leaves of the tree that comes to it at this depth. */
  function Clipped(t: Manifest, depth: nat): Manifest
    decreases t
  {
    if depth < MAX_MANIFEST_DEPTH then t.(entries := ClippedIn(t.entries, depth + 1))
    else
      var j := FirstBranch(t.entries);
      if j < |t.entries| then t.(entries := t.entries[j := t.entries[j].(manifest := None)]) else t
  }

  function ClippedIn(es: seq<Entry>, depth: nat): (r: seq<Entry>)
    ensures |r| == |es|
    decreases es
  {
    if es == [] then []
    else
      var e := es[|es| - 1];
      ClippedIn(es[..|es| - 1], depth) +
      [if e.manifest.Some? then e.(manifest := Some(Clipped(e.manifest.value, depth))) else e]
  }

  /** The branches that it puts on the stack. */
  function CutsOf(t: Manifest, depth: nat): seq<Manifest>
    decreases t
  {
    if depth < MAX_MANIFEST_DEPTH then CutsIn(t.entries, depth + 1)
    else
      var j := FirstBranch(t.entries);
      if j < |t.entries| then [t.entries[j].manifest.value] else []
  }

  function CutsIn(es: seq<Entry>, depth: nat): seq<Manifest>
    decreases es
  {
    if es == [] then []
    else
      var e := es[|es| - 1];
      CutsIn(es[..|es| - 1], depth) + if e.manifest.Some? then CutsOf(e.manifest.value, depth) else []
  }

  /** What it stores. */
  function Stored(t: Manifest, depth: nat): Blobs
    decreases t
  {
    if depth < MAX_MANIFEST_DEPTH then StoredIn(t.entries, depth + 1)[t.name := Clipped(t, depth)]
    else if FirstBranch(t.entries) < |t.entries| then map[]
    else map[t.name := t]
  }

  function StoredIn(es: seq<Entry>, depth: nat): Blobs
    decreases es
  {
    if es == [] then map[]
    else
      var e := es[|es| - 1];
      StoredIn(es[..|es| - 1], depth) + if e.manifest.Some? then Stored(e.manifest.value, depth) else map[]
  }

  /** The pass over `t` has come to position `i`. */
  predicate PassedUpTo(s: Blobs, s': Blobs, m: Manifest, t: Manifest, cuts: seq<Manifest>, i: nat, depth: nat) {
    && i <= |t.entries|
    && m == t.(entries := ClippedIn(t.entries[..i], depth + 1) + t.entries[i..])
    && cuts == CutsIn(t.entries[..i], depth + 1)
    && s' == s + StoredIn(t.entries[..i], depth + 1)
  }

  lemma PassStart(s: Blobs, t: Manifest, depth: nat)
    ensures PassedUpTo(s, s, t, t, [], 0, depth)
  {
    assert t.entries[..0] == [] && t.entries[0..] == t.entries;
    assert s + map[] == s;
  }

  lemma PassLeaf(s: Blobs, s': Blobs, m: Manifest, t: Manifest, cuts: seq<Manifest>, i: nat, depth: nat)
    requires PassedUpTo(s, s', m, t, cuts, i, depth) && i < |t.entries| && t.entries[i].manifest.None?
    ensures PassedUpTo(s, s', m, t, cuts, i + 1, depth)
  {
    hide Clipped, CutsOf, Stored;
    var es := t.entries[..i + 1];
    assert es[..i] == t.entries[..i] && es[i] == t.entries[i];
    assert StoredIn(es, depth + 1) == StoredIn(t.entries[..i], depth + 1);
    assert m.entries == ClippedIn(es, depth + 1) + t.entries[i + 1..];
  }

  lemma PassBranch(s: Blobs, s': Blobs, s'': Blobs, m: Manifest, t: Manifest, cuts: seq<Manifest>, i: nat, depth: nat)
    requires PassedUpTo(s, s', m, t, cuts, i, depth) && i < |t.entries| && t.entries[i].manifest.Some?
    requires s'' == s' + Stored(t.entries[i].manifest.value, depth + 1)
    ensures i < |m.entries| && m.entries[i] == t.entries[i]
    ensures var c := t.entries[i].manifest.value;
      PassedUpTo(s, s'', m.(entries := m.entries[i := m.entries[i].(manifest := Some(Clipped(c, depth + 1)))]), t,
                 cuts + CutsOf(c, depth + 1), i + 1, depth)
  {
    hide Clipped, CutsOf, Stored;
    var es, c := t.entries[..i + 1], t.entries[i].manifest.value;
    var e := t.entries[i].(manifest := Some(Clipped(c, depth + 1)));
    assert es[..i] == t.entries[..i] && es[i] == t.entries[i];
    assert StoredIn(es, depth + 1) == StoredIn(t.entries[..i], depth + 1) + Stored(c, depth + 1);
    assert s'' == s + StoredIn(es, depth + 1);
    assert ClippedIn(es, depth + 1) == ClippedIn(t.entries[..i], depth + 1) + [e];
    assert m.entries[i := e] == ClippedIn(es, depth + 1) + t.entries[i + 1..];
  }

  lemma PassDone(s: Blobs, s': Blobs, m: Manifest, t: Manifest, cuts: seq<Manifest>, depth: nat)
    requires depth < MAX_MANIFEST_DEPTH && PassedUpTo(s, s', m, t, cuts, |t.entries|, depth)
    ensures m == Clipped(t, depth) && cuts == CutsOf(t, depth) && s'[m.name := m] == s + Stored(t, depth)
  {
    assert t.entries[..|t.entries|] == t.entries;
    assert m.entries == ClippedIn(t.entries, depth + 1);
  }

  // ----- The loop of a pass, and its result -----

  /** A node at this depth has nothing below it that a flush would cut. */
  predicate FitsBelow(t: Manifest, depth: nat) {
    depth + Height(t.entries) <= MAX_MANIFEST_DEPTH
  }

  /** What a pass over the node `t` knows after its first `i` entries: what it has cut is apart from
      all that is still ahead; if the node is low enough, nothing is cut and all that is stored is
      stored whole. */
  ghost predicate Flushing(s: Blobs, s': Blobs, m: Manifest, t: Manifest, i: nat, depth: nat, cuts: seq<Manifest>) {
    && i <= |t.entries| && CutUpTo(m, t, cuts, i) && Ahead(cuts, t, i) && Stackable(cuts) && Below(cuts, t)
    && OnlyNodes(s, s', t) && StoredNodes(s, s', t, cuts)
    && (FitsBelow(t, depth) ==> m == t && cuts == [] && WholeUpTo(s', t, i))
    && if depth < MAX_MANIFEST_DEPTH then PassedUpTo(s, s', m, t, cuts, i, depth)
       else m == t && cuts == [] && s' == s && forall k :: 0 <= k < i ==> t.entries[k].manifest.None?
  }

  /** What a pass has changed, whether it has gone through or not. */
  ghost predicate PartPass(s: Blobs, s': Blobs, t: Manifest, depth: nat, cuts: seq<Manifest>) {
    && Stackable(cuts) && Below(cuts, t) && (FitsBelow(t, depth) ==> cuts == [])
    && OnlyNodes(s, s', t) && StoredNodes(s, s', t, cuts)
  }

  /** What it has done when it has gone through. */
  ghost predicate WholePass(s: Blobs, s': Blobs, m: Manifest, t: Manifest, depth: nat, cuts: seq<Manifest>) {
    && PartPass(s, s', t, depth, cuts)
    && m == Clipped(t, depth) && cuts == CutsOf(t, depth) && s' == s + Stored(t, depth)
    && Cut(m, t, cuts)
    && (FitsBelow(t, depth) ==> m == t && Whole(s', t))
  }

  lemma WholeIsPart(s: Blobs, s': Blobs, m: Manifest, t: Manifest, depth: nat, cuts: seq<Manifest>)
    requires WholePass(s, s', m, t, depth, cuts)
    ensures PartPass(s, s', t, depth, cuts)
  {
  }

  lemma FlushStart(s: Blobs, t: Manifest, depth: nat)
    ensures Flushing(s, s, t, t, 0, depth, [])
  {
    PassStart(s, t, depth);
  }

  lemma FlushedSoFar(s: Blobs, s': Blobs, m: Manifest, t: Manifest, i: nat, depth: nat, cuts: seq<Manifest>)
    requires Flushing(s, s', m, t, i, depth, cuts)
    ensures PartPass(s, s', t, depth, cuts) && i <= |t.entries| && |m.entries| == |t.entries|
    ensures i < |t.entries| ==> m.entries[i] == t.entries[i]
    ensures depth >= MAX_MANIFEST_DEPTH ==> cuts == [] && m == t && s' == s
  {
  }

  lemma FlushLeaf(s: Blobs, s': Blobs, m: Manifest, t: Manifest, i: nat, depth: nat, cuts: seq<Manifest>)
    requires Flushing(s, s', m, t, i, depth, cuts) && i < |t.entries| && t.entries[i].manifest.None?
    ensures Flushing(s, s', m, t, i + 1, depth, cuts)
  {
    hide PassedUpTo, CutEntry, Height, Whole, Within, StoredNode;
    CutKeep(m, t, cuts, i);
    if depth < MAX_MANIFEST_DEPTH {
      PassLeaf(s, s', m, t, cuts, i, depth);
    }
  }

  /** At the limit the first sub-branch is cut out, and the pass ends. */
  lemma FlushLimit(s: Blobs, s': Blobs, m: Manifest, t: Manifest, i: nat, depth: nat, cuts: seq<Manifest>)
    requires Flushing(s, s', m, t, i, depth, cuts) && depth >= MAX_MANIFEST_DEPTH && ValidTree(t)
    requires i < |t.entries| && t.entries[i].etype.IntermediateEntry? && t.entries[i].manifest.Some?
    ensures i == FirstBranch(t.entries) && s' == s
    ensures WholePass(s, s', m.(entries := m.entries[i := m.entries[i].(manifest := None)]), t, depth, [t.entries[i].manifest.value])
  {
    hide CutEntry, Height, Whole, Within, StoredNode;
    var m' := m.(entries := m.entries[i := m.entries[i].(manifest := None)]);
    CutOut(m', t, i);
    FirstBranchIsUnique(t.entries, i);
    assert s + Stored(t, depth) == s;
    StoredMore(s, s', t, [], [t.entries[i].manifest.value]);
  }

  /** Above it the branch has been stored. */
  lemma FlushNext(s: Blobs, s': Blobs, s'': Blobs, m: Manifest, t: Manifest, i: nat, depth: nat,
                  cuts: seq<Manifest>, child': Manifest, more: seq<Manifest>)
    requires Flushing(s, s', m, t, i, depth, cuts) && depth < MAX_MANIFEST_DEPTH && ValidTree(t)
    requires i < |t.entries| && t.entries[i].etype.IntermediateEntry? && t.entries[i].manifest.Some?
    requires PartPass(s', s'', t.entries[i].manifest.value, depth + 1, more)
    ensures PartPass(s, s'', t, depth, cuts + more)
    ensures i < |m.entries|
    ensures WholePass(s', s'', child', t.entries[i].manifest.value, depth + 1, more) ==>
      Flushing(s, s'', m.(entries := m.entries[i := m.entries[i].(manifest := Some(child'))]), t, i + 1, depth, cuts + more)
  {
    hide Cut, Height, Whole, Within, CutEntry, PassedUpTo, Clipped, CutsOf, Stored, WholeUpTo, Stackable, Ahead, StoredNodes;
    var child := t.entries[i].manifest.value;
    ChildIsBelow(t, i);
    SameAfterChild(s, s', s'', t, child);
    CutNext(m, t, cuts, i, child', more);
    StoredChild(s, s', s'', t, i, cuts, more);
    if FitsBelow(t, depth) {
      WholeNext(s', s'', t, i);
    }
    if WholePass(s', s'', child', child, depth + 1, more) {
      PassBranch(s, s', s'', m, t, cuts, i, depth);
    }
  }

  /** After its last entry the node is stored. */
  lemma FlushStore(s: Blobs, s': Blobs, m: Manifest, t: Manifest, depth: nat, cuts: seq<Manifest>)
    requires Flushing(s, s', m, t, |t.entries|, depth, cuts) && ValidTree(t)
    ensures m.name == t.name && WholePass(s, s'[m.name := m], m, t, depth, cuts)
    ensures depth >= MAX_MANIFEST_DEPTH ==> FirstBranch(t.entries) == |t.entries|
  {
    hide Cut, Height, Whole, Within, CutEntry, PassedUpTo, Stackable, Ahead, StoredNodes;
    CutDone(m, t, cuts);
    SameAfterStore(s, s', m, t);
    StoredRoot(s, s', m, t, cuts);
    if FitsBelow(t, depth) {
      WholeNode(s', t);
    }
    if depth < MAX_MANIFEST_DEPTH {
      PassDone(s, s', m, t, cuts, depth);
    } else {
      FirstBranchIsUnique(t.entries, |t.entries|);
    }
  }

  // ----- A flush as a whole -----

  function StoredRoundOf(stack: seq<Manifest>): Blobs {
    if stack == [] then map[] else StoredRoundOf(stack[..|stack| - 1]) + Stored(stack[|stack| - 1], 0)
  }

  function CutsOfRound(stack: seq<Manifest>): seq<Manifest> {
    if stack == [] then [] else CutsOfRound(stack[..|stack| - 1]) + CutsOf(stack[|stack| - 1], 0)
  }

  lemma RoundTake(stack: seq<Manifest>, i: nat)
    requires i < |stack|
    ensures StoredRoundOf(stack[..i + 1]) == StoredRoundOf(stack[..i]) + Stored(stack[i], 0)
    ensures CutsOfRound(stack[..i + 1]) == CutsOfRound(stack[..i]) + CutsOf(stack[i], 0)
  {
    assert stack[..i + 1][..i] == stack[..i];
  }

  lemma {:induction false} CutsAreLower(t: Manifest, depth: nat, c: Manifest)
    requires c in CutsOf(t, depth)
    ensures Height(c.entries) < Height(t.entries)
    decreases t, |t.entries| + 1
  {
    if depth < MAX_MANIFEST_DEPTH {
      assert t.entries[..|t.entries|] == t.entries;
      CutsInAreLower(t.entries, depth + 1, c, |t.entries|);
    } else {
      ChildIsLower(t.entries, FirstBranch(t.entries));
    }
  }

  lemma {:induction false} CutsInAreLower(es: seq<Entry>, depth: nat, c: Manifest, n: nat)
    requires n <= |es| && c in CutsIn(es[..n], depth)
    ensures Height(c.entries) < Height(es)
    decreases es, n
  {
    assert n > 0 && es[..n][..n - 1] == es[..n - 1];
    var e := es[n - 1];
    if c in CutsIn(es[..n - 1], depth) {
      CutsInAreLower(es, depth, c, n - 1);
    } else {
      CutsAreLower(e.manifest.value, depth, c);
      ChildIsLower(es, n - 1);
    }
  }

  lemma {:induction false} RoundIsLower(stack: seq<Manifest>, c: Manifest)
    requires c in CutsOfRound(stack)
    ensures exists i :: 0 <= i < |stack| && c in CutsOf(stack[i], 0)
    ensures 1 + Height(c.entries) < StackHeight(stack)
  {
    var n := |stack| - 1;
    if c in CutsOf(stack[n], 0) {
      CutsAreLower(stack[n], 0, c);
      OnStack(stack, n);
    } else {
      RoundIsLower(stack[..n], c);
      var i :| 0 <= i < |stack[..n]| && c in CutsOf(stack[..n][i], 0);
      assert stack[i] == stack[..n][i];
      CutsAreLower(stack[i], 0, c);
      OnStack(stack, i);
    }
  }

  lemma CutsOfRoundAreLower(stack: seq<Manifest>)
    requires CutsOfRound(stack) != []
    ensures StackHeight(CutsOfRound(stack)) < StackHeight(stack)
  {
    var next := CutsOfRound(stack);
    forall i | 0 <= i < |next| ensures Height(next[i].entries) < StackHeight(stack) - 1 {
      RoundIsLower(stack, next[i]);
    }
    assert Height(next[0].entries) < StackHeight(stack) - 1;
    StackIsLower(next, StackHeight(stack) - 1);
  }

  /** All that emptying the stack stores, round by round. */
  function StoredByFlush(stack: seq<Manifest>): Blobs
    decreases StackHeight(stack)
  {
    var next := CutsOfRound(stack);
    if next == [] then StoredRoundOf(stack)
    else
      CutsOfRoundAreLower(stack);
      StoredRoundOf(stack) + StoredByFlush(next)
  }

  lemma FitsIsShallow(t: Manifest)
    ensures FitsBelow(t, 0) <==> Shallow(t)
  {
  }

  lemma RoundStart(s: Blobs, stack: seq<Manifest>)
    ensures CutsOfRound(stack[..0]) == [] && s == s + StoredRoundOf(stack[..0])
  {
    assert stack[..0] == [];
    assert s == s + map[];
  }

  // ----- The names that a flush stores -----

  /** A flush that comes to `t` at this depth stores a node under the name `n`, now or in a later
      round: above the depth limit every node; at the limit a node without a sub-branch, or what the
      first sub-branch stores when it starts a round of its own. */
  predicate Stores(t: Manifest, depth: nat, n: Str)
    decreases t
  {
    if depth < MAX_MANIFEST_DEPTH then
      n == t.name ||
      exists i :: 0 <= i < |t.entries| && t.entries[i].manifest.Some? && Stores(t.entries[i].manifest.value, depth + 1, n)
    else
      var j := FirstBranch(t.entries);
      if j == |t.entries| then n == t.name else Stores(t.entries[j].manifest.value, 0, n)
  }

  lemma {:induction false} StoresNowOrLater(t: Manifest, depth: nat, n: Str)
    ensures Stores(t, depth, n) <==> n in Stored(t, depth) || exists c :: c in CutsOf(t, depth) && Stores(c, 0, n)
    decreases t, |t.entries| + 1
  {
    hide Clipped;
    if depth < MAX_MANIFEST_DEPTH {
      StoresIn(t.entries, depth + 1, n, |t.entries|);
      assert t.entries[..|t.entries|] == t.entries;
    } else {
      var j := FirstBranch(t.entries);
      if j < |t.entries| {
        assert CutsOf(t, depth) == [t.entries[j].manifest.value];
        assert t.entries[j].manifest.value in CutsOf(t, depth);
      }
    }
  }

  lemma {:induction false} StoresIn(es: seq<Entry>, depth: nat, n: Str, k: nat)
    requires k <= |es|
    ensures (exists i :: 0 <= i < k && es[i].manifest.Some? && Stores(es[i].manifest.value, depth, n)) <==>
      (n in StoredIn(es[..k], depth) || exists c :: c in CutsIn(es[..k], depth) && Stores(c, 0, n))
    decreases es, k
  {
    hide Stored, CutsOf, Stores;
    if k > 0 {
      assert es[..k][..k - 1] == es[..k - 1] && es[..k][k - 1] == es[k - 1];
      StoresIn(es, depth, n, k - 1);
      if es[k - 1].manifest.Some? {
        StoresNowOrLater(es[k - 1].manifest.value, depth, n);
      }
    }
  }

  lemma {:induction false} RoundStores(stack: seq<Manifest>, n: Str)
    ensures (exists k :: 0 <= k < |stack| && Stores(stack[k], 0, n)) <==>
      (n in StoredRoundOf(stack) || exists c :: c in CutsOfRound(stack) && Stores(c, 0, n))
  {
    hide Stored, CutsOf, Stores;
    if stack != [] {
      var init, t := stack[..|stack| - 1], stack[|stack| - 1];
      RoundStores(init, n);
      StoresNowOrLater(t, 0, n);
      if k :| 0 <= k < |stack| && Stores(stack[k], 0, n) && k < |init| {
        assert init[k] == stack[k];
      }
      if k :| 0 <= k < |init| && Stores(init[k], 0, n) {
        assert init[k] == stack[k];
      }
    }
  }

  /** Exactly these names are stored by a flush of the stacked trees. */
  lemma {:induction false} FlushStores(stack: seq<Manifest>, n: Str)
    ensures n in StoredByFlush(stack) <==> exists k :: 0 <= k < |stack| && Stores(stack[k], 0, n)
    decreases StackHeight(stack)
  {
    hide StoredRoundOf, CutsOfRound, Stores;
    var next := CutsOfRound(stack);
    RoundStores(stack, n);
    if next != [] {
      CutsOfRoundAreLower(stack);
      FlushStores(next, n);
      if c :| c in next && Stores(c, 0, n) {
        var k :| 0 <= k < |next| && next[k] == c;
        assert Stores(next[k], 0, n);
      }
    }
  }

  /** Only nodes of the tree are stored. */
  lemma {:induction false} StoresNodes(t: Manifest, depth: nat, n: Str)
    requires Stores(t, depth, n)
    ensures HasNode(t, n)
    decreases t
  {
    if depth < MAX_MANIFEST_DEPTH && n != t.name {
      var i :| 0 <= i < |t.entries| && t.entries[i].manifest.Some? && Stores(t.entries[i].manifest.value, depth + 1, n);
      StoresNodes(t.entries[i].manifest.value, depth + 1, n);
      NodeBelow(t.entries, i, n);
    } else if depth >= MAX_MANIFEST_DEPTH && FirstBranch(t.entries) < |t.entries| {
      var j := FirstBranch(t.entries);
      StoresNodes(t.entries[j].manifest.value, 0, n);
      NodeBelow(t.entries, j, n);
    }
  }

  /** All of them, if the tree fits above the limit. */
  lemma {:induction false} StoresEvery(t: Manifest, depth: nat, n: Str)
    requires depth + Height(t.entries) <= MAX_MANIFEST_DEPTH
    ensures Stores(t, depth, n) <==> HasNode(t, n)
    decreases t
  {
    if Stores(t, depth, n) {
      StoresNodes(t, depth, n);
    }
    if HasNode(t, n) && n != t.name {
      var i :| 0 <= i < |t.entries| && t.entries[i].manifest.Some? && HasNode(t.entries[i].manifest.value, n);
      ChildIsLower(t.entries, i);
      StoresEvery(t.entries[i].manifest.value, depth + 1, n);
    } else if FirstBranch(t.entries) < |t.entries| {
      ChildIsLower(t.entries, FirstBranch(t.entries));
    }
  }

  /** A node at the limit is not stored under its own name exactly if it has a sub-branch. */
  lemma LimitNode(t: Manifest, depth: nat)
    requires ValidTree(t) && depth >= MAX_MANIFEST_DEPTH
    ensures Stores(t, depth, t.name) <==> Height(t.entries) == 0
  {
    var j := FirstBranch(t.entries);
    if j < |t.entries| {
      var d := t.entries[j].manifest.value;
      ChildIsBelow(t, j);
      ChildIsLower(t.entries, j);
      if Stores(d, 0, t.name) {
        StoresNodes(d, 0, t.name);
        NodesStart(d, t.name);
      }
    } else {
      NoBranch(t.entries);
    }
  }

  lemma {:induction false} NoBranch(es: seq<Entry>)
    requires forall i :: 0 <= i < |es| ==> es[i].manifest.None?
    ensures Height(es) == 0
  {
    if es != [] {
      NoBranch(es[1..]);
    }
  }

  // ----- A write as a whole -----

  /** A flush stores nodes of the stacked trees only. */
  lemma FlushIsWithin(stack: seq<Manifest>, n: Str)
    requires n in StoredByFlush(stack)
    ensures InStack(stack, n)
  {
    hide StoredByFlush, Stores;
    FlushStores(stack, n);
    var k :| 0 <= k < |stack| && Stores(stack[k], 0, n);
    StoresNodes(stack[k], 0, n);
  }

  /** The root is stored between the first round and the others, under a name of its own. */
  lemma RootBetween(s: Blobs, root: Manifest, kids: seq<Manifest>)
    requires !InStack(kids, root.name)
    ensures (s + StoredRoundOf(kids))[root.name := root] + StoredByFlush(CutsOfRound(kids)) ==
            (s + StoredByFlush(kids))[root.name := root]
  {
    hide StoredRoundOf, CutsOfRound, InStack;
    var next := CutsOfRound(kids);
    if next == [] {
      EmptyRound();
      BetweenMaps(s, StoredRoundOf(kids), map[], root);
    } else {
      if root.name in StoredByFlush(next) {
        assert root.name in StoredByFlush(kids);
        FlushIsWithin(kids, root.name);
        assert false;
      }
      BetweenMaps(s, StoredRoundOf(kids), StoredByFlush(next), root);
    }
  }

  lemma BetweenMaps(s: Blobs, a: Blobs, b: Blobs, root: Manifest)
    requires root.name !in b
    ensures (s + a)[root.name := root] + b == (s + (a + b))[root.name := root]
    ensures a + map[] == a
  {
  }

  lemma EmptyRound()
    ensures StoredRoundOf([]) == map[] && StoredByFlush([]) == map[]
  {
  }
}
