/** How deep a batch may grow before a flush leaves a node out: a batch whose keys lie on one long
    path, written to an index without entries. */
module Depths {
  import opened Bytes
  import opened Tree
  import opened Insert
  import opened Storage
  import opened Nodes
  import opened Steps
  import opened Runs
  import opened Flush
  import opened Snapshots
  import opened Merge
  import opened DiskPut
  import opened AfterFlush

  /** A word that can be climbed byte by byte: all its bytes are larger than the one that ends a key. */
  predicate Climbs(w: Str, one: Byte) {
    w != [] && forall i :: 0 <= i < |w| ==> one < w[i]
  }

  /** A put for every prefix of the word: the prefix, and the byte that ends a key. */
  function Rungs(w: Str, one: Byte, v: Str): seq<Op> {
    if w == [] then [] else Rungs(w[..|w| - 1], one, v) + [PutOp(w + [one], v, false)]
  }

  /** The batch that these puts build, and one more key that extends the whole word. */
  function Ladder(name: Str, w: Str, one: Byte, rest: Str, v: Str): Manifest {
    Run(Manifest(name, false, []), Rungs(w, one, v) + [PutOp(w + rest, v, false)])
  }

  /** Its only entry: a node for each prefix of the word. */
  function Spine(base: Str, w: Str, one: Byte, rest: Str, v: Str): Entry
    requires w != []
    decreases |w|
  {
    if |w| > 1 then BranchTo(w[..1], [v], Inner(base, w, one, rest, v))
    else if rest == [] then LeafOf(w + [one], [v])
    else BranchTo(w, [v], Manifest(base + w, false, [LeafOf([one], [v]), LeafOf(rest, [v])]))
  }

  function Inner(base: Str, w: Str, one: Byte, rest: Str, v: Str): Manifest
    requires |w| > 1
    decreases |w|, 0
  {
    Manifest(base + w[..1], false, [LeafOf([one], [v]), Spine(base + w[..1], w[1..], one, rest, v)])
  }

  lemma {:induction false} SpineIsValid(base: Str, w: Str, one: Byte, rest: Str, v: Str)
    requires Climbs(w, one) && (rest != [] ==> one < rest[0])
    ensures var e := Spine(base, w, one, rest, v); ValidEntry(base, e) && Head(e.name) == Head(w)
    decreases |w|
  {
    if |w| > 1 {
      SpineIsValid(base + w[..1], w[1..], one, rest, v);
      var d := Inner(base, w, one, rest, v);
      assert ValidEntry(d.name, d.entries[0]) && ValidEntry(d.name, d.entries[1]);
    }
  }

  /** A longer word is a longer rest. */
  lemma {:induction false} SpineGrows(base: Str, w: Str, one: Byte, c: Byte, v: Str)
    requires w != []
    ensures Spine(base, w, one, [c] + [one], v) == Spine(base, w + [c], one, [], v)
    decreases |w|
  {
    assert (w + [c])[..1] == w[..1] && (w + [c])[1..] == w[1..] + [c];
    if |w| > 1 {
      SpineGrows(base + w[..1], w[1..], one, c, v);
    } else {
      assert w[1..] + [c] == [c] && w[..1] == w;
      assert Spine(base + w, [c], one, [], v) == LeafOf([c] + [one], [v]);
      assert Spine(base, w + [c], one, [], v) == BranchTo(w, [v], Inner(base, w + [c], one, [], v));
    }
  }

  /** A put below the last node. */
  lemma {:induction false} PutRest(m: Manifest, i: nat, w: Str, one: Byte, rest: Str, v: Str)
    requires ValidTree(m) && Climbs(w, one) && rest != [] && one < rest[0]
    requires i < |m.entries| && m.entries[i] == Spine(m.name, w, one, [], v)
    requires forall j :: 0 <= j < i ==> Head(m.entries[j].name) != Head(w)
    ensures PutTree(m, w + rest, v, false) == m.(entries := m.entries[i := Spine(m.name, w, one, rest, v)])
    decreases |w|
  {
    hide Pair, Insert.Put, ValidEntries, Split, Rest;
    SlotIsUnique(m.entries, w + rest, i) by { SpineIsValid(m.name, w, one, [], v); }
    if |w| > 1 {
      var d := Inner(m.name, w, one, [], v);
      assert ValidEntry(m.name, m.entries[i]) by { EntryOfValid(m, i); }
      DescendPut(m, i, w + rest, v, false);
      PutRest(d, 1, w[1..], one, rest, v);
      assert (w + rest)[1..] == w[1..] + rest;
      assert PutTree(d, w[1..] + rest, v, false) == Inner(m.name, w, one, rest, v);
      assert Descended(m.entries[i], w[1..] + rest, v, false) == Spine(m.name, w, one, rest, v);
    } else {
      SplitPut(m, i, w, [one], rest, v, false);
      SplitShape(m.name, m.entries[i], w, [one], rest, v);
      PairInOrder(m.name + w, LeafOf(rest, [v]), LeafOf([one], [v]));
      assert Rest(m.entries[i], [one]) == LeafOf([one], [v]) by { LeafRest(m.entries[i], [one]); }
    }
  }

  lemma EntryOfValid(m: Manifest, i: nat)
    requires ValidTree(m) && i < |m.entries|
    ensures ValidEntry(m.name, m.entries[i])
  {
  }

  lemma LeafRest(e: Entry, suffix: Str)
    requires e.etype.LeafEntry?
    ensures Rest(e, suffix) == LeafOf(suffix, e.ref)
  {
  }

  lemma {:induction false} RunAppend(t: Manifest, ops: seq<Op>, op: Op)
    ensures Run(t, ops + [op]) == Step(Run(t, ops), op)
    decreases ops
  {
    hide Step;
    if ops == [] {
      assert [] + [op] == [op] && [op][1..] == [];
      assert Run(t, [op]) == Run(Step(t, op), []);
    } else {
      assert (ops + [op])[1..] == ops[1..] + [op];
      RunAppend(Step(t, ops[0]), ops[1..], op);
    }
  }

  lemma PutStepIs(t: Manifest, key: Str, v: Str)
    ensures Step(t, PutOp(key, v, false)) == PutTree(t, key, v, false)
  {
  }

  lemma {:induction false} RungsTree(name: Str, w: Str, one: Byte, v: Str)
    requires Climbs(w, one)
    ensures Run(Manifest(name, false, []), Rungs(w, one, v)) == Manifest(name, false, [Spine(name, w, one, [], v)])
    decreases |w|
  {
    hide Run, Spine, Step;
    var empty, n := Manifest(name, false, []), |w| - 1;
    RunAppend(empty, Rungs(w[..n], one, v), PutOp(w + [one], v, false));
    if n == 0 {
      assert Run(empty, []) == empty by { RunNothing(empty); }
      PutStepIs(empty, w + [one], v);
      FirstRung(name, w, one, v);
    } else {
      RungsTree(name, w[..n], one, v);
      var t := Manifest(name, false, [Spine(name, w[..n], one, [], v)]);
      PutStepIs(t, w + [one], v);
      SpineIsValid(name, w[..n], one, [], v);
      assert ValidTree(t);
      assert w[..n] + ([w[n]] + [one]) == w + [one] && w[..n] + [w[n]] == w;
      PutRest(t, 0, w[..n], one, [w[n]] + [one], v);
      SpineGrows(name, w[..n], one, w[n], v);
    }
  }

  lemma RunNothing(t: Manifest)
    ensures Run(t, []) == t
  {
  }

  lemma FirstRung(name: Str, w: Str, one: Byte, v: Str)
    requires |w| == 1
    ensures PutTree(Manifest(name, false, []), w + [one], v, false) == Manifest(name, false, [Spine(name, w, one, [], v)])
  {
    NoDuplicate([], LeafOf(w + [one], [v]));
  }

  lemma LadderTree(name: Str, w: Str, one: Byte, rest: Str, v: Str)
    requires Climbs(w, one) && rest != [] && one < rest[0]
    ensures Ladder(name, w, one, rest, v) == Manifest(name, false, [Spine(name, w, one, rest, v)])
    ensures ValidTree(Ladder(name, w, one, rest, v))
  {
    hide Run, Spine, Step;
    RungsTree(name, w, one, v);
    RunAppend(Manifest(name, false, []), Rungs(w, one, v), PutOp(w + rest, v, false));
    var t := Manifest(name, false, [Spine(name, w, one, [], v)]);
    PutStepIs(t, w + rest, v);
    SpineIsValid(name, w, one, [], v);
    SpineIsValid(name, w, one, rest, v);
    assert ValidTree(t);
    PutRest(t, 0, w, one, rest, v);
  }

  // ----- Which of its nodes are stored -----

  /** The node below the spine's entry. */
  function Top(base: Str, w: Str, one: Byte, rest: Str, v: Str): Manifest
    requires w != [] && rest != []
  {
    Spine(base, w, one, rest, v).manifest.value
  }

  /** Every fourth node is left out, unless it is the last one. */
  lemma {:induction false} SpineStores(base: Str, w: Str, one: Byte, rest: Str, v: Str, depth: nat, k: nat)
    requires Climbs(w, one) && rest != [] && one < rest[0] && depth <= 3 && 1 <= k <= |w|
    ensures Stores(Top(base, w, one, rest, v), depth, base + w[..k]) <==> !((depth + k) % 4 == 0 && k < |w|)
    decreases |w|
  {
    var t, n := Top(base, w, one, rest, v), base + w[..k];
    if |w| == 1 {
      assert w[..k] == w;
      assert FirstBranch(t.entries) == 2;
    } else {
      var d := Top(base + w[..1], w[1..], one, rest, v);
      assert t == Inner(base, w, one, rest, v) && t.entries[1].manifest == Some(d);
      OneBranch(t, depth, n);
      assert |n| == |base| + k;
      if k > 1 {
        assert n == base + w[..1] + w[1..][..k - 1];
        SpineStores(base + w[..1], w[1..], one, rest, v, if depth < 3 then depth + 1 else 0, k - 1);
      } else if depth == 3 {
        SpineIsValid(base, w, one, rest, v);
        LimitNode(t, depth);
        ChildIsLower(t.entries, 1);
      }
    }
  }

  lemma OneBranch(t: Manifest, depth: nat, n: Str)
    requires |t.entries| == 2 && t.entries[0].manifest.None? && t.entries[1].manifest.Some?
    ensures Stores(t, depth, n) <==>
      if depth < 3 then n == t.name || Stores(t.entries[1].manifest.value, depth + 1, n)
      else Stores(t.entries[1].manifest.value, 0, n)
  {
    assert FirstBranch(t.entries) == 1;
  }

  // ----- What the node that is left out costs -----

  /** A snapshot of the node before the word `w` goes on: the leaf, and the next branch. */
  predicate Leads(m: Manifest, n: Str, w: Str, one: Byte)
    requires w != []
  {
    && m.name == n && |m.entries| == 2 && m.entries[0].name == [one]
    && m.entries[1].name == w[..1] && m.entries[1].etype.IntermediateEntry?
  }

  lemma {:induction false} SpineStored(base: Str, w: Str, one: Byte, rest: Str, v: Str, depth: nat, k: nat)
    requires w != [] && rest != [] && 1 <= k < |w| && depth + k <= 3
    ensures var n, stored := base + w[..k], Stored(Top(base, w, one, rest, v), depth);
      n in stored && Leads(stored[n], n, w[k..], one)
    decreases |w|
  {
    var t, d := Top(base, w, one, rest, v), Top(base + w[..1], w[1..], one, rest, v);
    assert t == Inner(base, w, one, rest, v) && t.entries[1].manifest == Some(d);
    TwoEntries(t, depth);
    if k > 1 {
      SpineStored(base + w[..1], w[1..], one, rest, v, depth + 1, k - 1);
      assert base + w[..1] + w[1..][..k - 1] == base + w[..k] && w[1..][k - 1..] == w[k..];
      assert |base + w[..k]| == |base| + k;
    } else {
      assert w[1..][..1] == t.entries[1].name by {
        if |w| == 2 {
          assert w[1..][..1] == w[1..];
        }
      }
    }
  }

  lemma TwoEntries(t: Manifest, depth: nat)
    requires |t.entries| == 2 && t.entries[0].manifest.None? && t.entries[1].manifest.Some? && depth < MAX_MANIFEST_DEPTH
    ensures var d := t.entries[1].manifest.value;
      && Stored(t, depth) == Stored(d, depth + 1)[t.name := Clipped(t, depth)] && CutsOf(t, depth) == CutsOf(d, depth + 1)
    ensures var c := Clipped(t, depth);
      && c.name == t.name && |c.entries| == 2
      && forall i :: 0 <= i < 2 ==> c.entries[i].name == t.entries[i].name && c.entries[i].etype == t.entries[i].etype
  {
    var es := t.entries;
    assert es[..1][..0] == [] && es[..1] == [es[0]];
    assert es[..|es| - 1] == es[..1];
    assert ClippedIn(es[..1], depth + 1) == [es[0]] && CutsIn(es[..1], depth + 1) == [];
    assert StoredIn([], depth + 1) == map[];
    assert StoredIn(es[..1], depth + 1) == StoredIn([], depth + 1) + map[] == map[];
  }

  lemma TwoLeaves(t: Manifest, depth: nat)
    requires |t.entries| == 2 && t.entries[0].manifest.None? && t.entries[1].manifest.None?
    ensures CutsOf(t, depth) == []
  {
    var es := t.entries;
    assert es[..|es| - 1] == es[..1] == [es[0]] && es[..1][..0] == [];
    assert CutsIn(es[..1], depth + 1) == CutsIn([], depth + 1) + [] == [];
    assert CutsIn(es, depth + 1) == CutsIn(es[..1], depth + 1) + [] == [];
    FirstBranchIsUnique(es, 2);
  }

  /** What is cut out of the spine lies deeper than its fourth node. */
  lemma {:induction false} SpineCuts(base: Str, w: Str, one: Byte, rest: Str, v: Str, depth: nat, c: Manifest)
    requires Climbs(w, one) && rest != [] && one < rest[0] && depth <= 3 && c in CutsOf(Top(base, w, one, rest, v), depth)
    ensures |c.name| > |base| + 4 - depth && ValidTree(c)
    decreases |w|
  {
    var t := Top(base, w, one, rest, v);
    if |w| == 1 {
      TwoLeaves(t, depth);
    } else {
      var d := Top(base + w[..1], w[1..], one, rest, v);
      assert t == Inner(base, w, one, rest, v) && t.entries[1].manifest == Some(d);
      if depth < 3 {
        TwoEntries(t, depth);
        SpineCuts(base + w[..1], w[1..], one, rest, v, depth + 1, c);
      } else {
        assert FirstBranch(t.entries) == 1 && c == d;
        SpineIsValid(base + w[..1], w[1..], one, rest, v);
      }
    }
  }

  /** The word leads from the node to a branch whose node is not stored. */
  predicate Dangles(s: Blobs, m: Manifest, w: Str)
    decreases |w|
  {
    w != [] &&
    var i := Slot(m.entries, w);
    && i < |m.entries| && m.entries[i].etype.IntermediateEntry? && m.entries[i].name == w[..1]
    && if |w| == 1 then m.name + w !in s else m.name + w[..1] in s && Dangles(s, s[m.name + w[..1]], w[1..])
  }

  lemma {:induction false} NoWrites(s: Blobs, m: Manifest, w: Str, x: Str, v: Str, apnd: bool)
    requires Dangles(s, m, w)
    ensures Writes(s, m, w + x, v, apnd) == None
    decreases |w|
  {
    var i := Slot(m.entries, w);
    SlotIsUnique(m.entries, w + x, i);
    CommonLengthIsUnique(m.entries[i].name, w + x, 1);
    assert PutAt(m, w + x, v, apnd, false) == Descends(i, (w + x)[1..]);
    assert (w + x)[1..] == w[1..] + x;
    if |w| > 1 {
      NoWrites(s, s[m.name + w[..1]], w[1..], x, v, apnd);
    } else {
      assert w[..1] == w;
    }
  }

  /** The store after the batch was written to an index without entries. */
  predicate LadderWritten(s: Blobs, s': Blobs, name: Str, w: Str, one: Byte, rest: Str, v: Str) {
    var t := Ladder(name, w, one, rest, v);
    s' == (s + StoredByFlush(Children(t.entries)))[name := MergedRoot(Manifest(name, true, []), t)]
  }

  lemma LadderRoot(name: Str, w: Str, one: Byte, rest: Str, v: Str)
    requires Climbs(w, one) && rest != [] && one < rest[0]
    ensures var t := Ladder(name, w, one, rest, v);
      && Children(t.entries) == [Top(name, w, one, rest, v)] && ValidTree(Top(name, w, one, rest, v))
      && MergedRoot(Manifest(name, true, []), t).name == name
      && MergedRoot(Manifest(name, true, []), t).entries == [Spine(name, w, one, rest, v).(manifest := None)]
  {
    hide Merged, Ladder;
    LadderTree(name, w, one, rest, v);
    var e := Spine(name, w, one, rest, v);
    SpineIsValid(name, w, one, rest, v);
    assert e.manifest.Some? && e.name != [];
    assert [e][..0] == [];
    assert Children([e]) == Children([]) + [e.manifest.value];
    assert Empties([e]) <= 1;
    MergedOntoNothing(name, [e]);
    assert StripAll([e]) == [Strip(e)];
  }

  /** Exactly every fourth node is left out. If the first of them was not there before, no put of a
      key that leads to it goes through. */
  lemma FourthNodeIsLost(s: Blobs, s': Blobs, name: Str, w: Str, one: Byte, rest: Str, v: Str, x: Str, y: Str, apnd: bool)
    requires Climbs(w, one) && |w| > 4 && rest != [] && one < rest[0]
    requires LadderWritten(s, s', name, w, one, rest, v)
    ensures forall k :: 1 <= k <= |w| ==>
      (name + w[..k] in StoredByFlush(Children(Ladder(name, w, one, rest, v).entries)) <==> !(k % 4 == 0 && k < |w|))
    ensures name in s'
    ensures name + w[..4] !in s ==> name + w[..4] !in s' && Writes(s', s'[name], w[..4] + x, y, apnd) == None
  {
    hide Ladder, StoredByFlush, Stores, Writes, Spine, MergedRoot, Children;
    var top := Top(name, w, one, rest, v);
    LadderRoot(name, w, one, rest, v);
    var stored := StoredByFlush([top]);
    forall k | 1 <= k <= |w| ensures name + w[..k] in stored <==> !(k % 4 == 0 && k < |w|) {
      FlushStores([top], name + w[..k]);
      SpineStores(name, w, one, rest, v, 0, k);
      assert [top][0] == top;
    }
    if name + w[..4] !in s {
      assert name + w[..4] != name by { assert |name + w[..4]| == |name| + 4; }
      forall k | 1 <= k < 4
        ensures name + w[..k] in s' && Leads(s'[name + w[..k]], name + w[..k], w[k..], one)
      {
        FirstNodes(name, w, one, rest, v, k);
        assert |name + w[..k]| == |name| + k;
      }
      RootLeads(name, w, one, rest, v);
      DanglesHere(s', name, w, one);
      NoWrites(s', s'[name], w[..4], x, y, apnd);
    }
  }

  lemma RootLeads(name: Str, w: Str, one: Byte, rest: Str, v: Str)
    requires |w| > 4
    ensures var e := Spine(name, w, one, rest, v); e.name == w[..1] && e.etype.IntermediateEntry?
  {
  }

  lemma FirstNodes(name: Str, w: Str, one: Byte, rest: Str, v: Str, k: nat)
    requires Climbs(w, one) && |w| > 4 && rest != [] && one < rest[0] && 1 <= k < 4
    ensures var n, stored := name + w[..k], StoredByFlush([Top(name, w, one, rest, v)]);
      n in stored && Leads(stored[n], n, w[k..], one)
  {
    hide Stored, CutsOf, Leads, Spine;
    var top, n := Top(name, w, one, rest, v), name + w[..k];
    SpineStored(name, w, one, rest, v, 0, k);
    assert |n| == |name| + k;
    assert [top][..0] == [] && [top][0] == top;
    assert StoredRoundOf([top]) == StoredRoundOf([]) + Stored(top, 0) == Stored(top, 0);
    var next := CutsOfRound([top]);
    assert next == CutsOfRound([]) + CutsOf(top, 0) == CutsOf(top, 0);
    if next != [] && n in StoredByFlush(next) {
      FlushIsWithin(next, n);
      var j :| 0 <= j < |next| && HasNode(next[j], n);
      SpineCuts(name, w, one, rest, v, 0, next[j]);
      NodesStart(next[j], n);
      assert false;
    }
  }

  lemma DanglesHere(s: Blobs, name: Str, w: Str, one: Byte)
    requires Climbs(w, one) && |w| > 4 && name in s && name + w[..4] !in s
    requires s[name].name == name && |s[name].entries| == 1 && s[name].entries[0].name == w[..1]
    requires s[name].entries[0].etype.IntermediateEntry?
    requires forall k :: 1 <= k < 4 ==> name + w[..k] in s && Leads(s[name + w[..k]], name + w[..k], w[k..], one)
    ensures Dangles(s, s[name], w[..4])
  {
    DanglesFrom(s, name, w, one, 3);
    DanglesFrom(s, name, w, one, 2);
    DanglesFrom(s, name, w, one, 1);
    var u := w[..4];
    SlotIsUnique(s[name].entries, u, 0);
    assert u[..1] == w[..1] && u[1..] == w[1..4];
  }

  lemma DanglesFrom(s: Blobs, name: Str, w: Str, one: Byte, k: nat)
    requires Climbs(w, one) && |w| > 4 && 1 <= k < 4
    requires name + w[..k] in s && Leads(s[name + w[..k]], name + w[..k], w[k..], one)
    requires if k == 3 then name + w[..4] !in s
             else name + w[..k + 1] in s && Dangles(s, s[name + w[..k + 1]], w[k + 1..4])
    ensures Dangles(s, s[name + w[..k]], w[k..4])
  {
    var m, u := s[name + w[..k]], w[k..4];
    SlotIsUnique(m.entries, u, 1);
    assert u[..1] == w[k..][..1] == w[k..k + 1] && u[1..] == w[k + 1..4];
    assert name + w[..k] + w[k..k + 1] == name + w[..k + 1];
  }
}
