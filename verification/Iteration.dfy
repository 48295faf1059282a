/** The explicit stack of an ordered traversal and the pairs it still has to give. */
module Iteration {
  import opened Bytes
  import opened Tree
  import opened Listing

  // ----- What a range iteration should give -----

  predicate IsBelowEnd(x: Item, end: Str) {
    end == [] || Less(x.key, end)
  }

  /** The pairs below the exclusive end key; all of them if the end is empty. */
  function BelowEnd(xs: seq<Item>, end: Str): seq<Item> {
    if xs == [] then []
    else (if IsBelowEnd(xs[0], end) then [xs[0]] else []) + BelowEnd(xs[1..], end)
  }

  /** The pairs below the end, truncated to the limit unless the limit is negative. */
  function Window(xs: seq<Item>, end: Str, limit: int): seq<Item> {
    var ys := BelowEnd(xs, end);
    if 0 <= limit < |ys| then ys[..limit] else ys
  }

  /** In an ascending list the pairs below the end come first. */
  lemma {:induction false} BelowEndIsPrefix(xs: seq<Item>, end: Str, p: nat)
    requires Ascending(xs) && p <= |xs|
    requires forall k :: 0 <= k < p ==> IsBelowEnd(xs[k], end)
    ensures p <= |BelowEnd(xs, end)| && BelowEnd(xs, end)[..p] == xs[..p]
    ensures (forall k :: p <= k < |xs| ==> !IsBelowEnd(xs[k], end)) ==> BelowEnd(xs, end) == xs[..p]
  {
    if xs != [] {
      BelowEndIsPrefix(xs[1..], end, if p == 0 then 0 else p - 1);
      if p > 0 {
        assert xs[..p] == [xs[0]] + xs[1..][..p - 1];
      }
    }
  }

  // ----- The stack -----

  /** A node of the traversal with the position of its next entry. */
  datatype Level = Level(tree: Manifest, index: nat)

  /** Consecutive levels: each node is the child below the last entry taken from the one
      under it. All names start with the `n` bytes of the index name. */
  predicate Chain(n: nat, levels: seq<Level>) {
    && (forall i :: 0 <= i < |levels| ==>
         ValidTree(levels[i].tree) && levels[i].index <= |levels[i].tree.entries| && n <= |levels[i].tree.name|)
    && forall i :: 0 < i < |levels| ==> IsChild(levels[i - 1], levels[i].tree)
  }

  predicate IsChild(parent: Level, child: Manifest) {
    && 0 < parent.index <= |parent.tree.entries|
    && parent.tree.entries[parent.index - 1].etype.IntermediateEntry?
    && parent.tree.entries[parent.index - 1].manifest == Some(child)
  }

  function LevelItems(n: nat, l: Level): seq<Item>
    requires n <= |l.tree.name| && l.index <= |l.tree.entries|
  {
    Under(l.tree.name[n..], Leaves(l.tree.entries[l.index..]))
  }

  /** What the stack still has to give: the top node first. */
  function Items(n: nat, levels: seq<Level>): seq<Item>
    requires Chain(n, levels)
  {
    if levels == [] then []
    else LevelItems(n, levels[|levels| - 1]) + Items(n, levels[..|levels| - 1])
  }

  function Size(es: seq<Entry>): nat
    decreases es
  {
    if es == [] then 0
    else 1 + (if es[0].manifest.Some? then Size(es[0].manifest.value.entries) else 0) + Size(es[1..])
  }

  /** The entries not yet taken from the nodes on the stack, and everything below them. */
  function Weight(levels: seq<Level>): nat {
    if levels == [] then 0
    else
      var l := levels[|levels| - 1];
      (if l.index <= |l.tree.entries| then Size(l.tree.entries[l.index..]) else 0) + Weight(levels[..|levels| - 1])
  }

  /** An exhausted node has nothing to give. */
  lemma PopIsSafe(n: nat, levels: seq<Level>)
    requires Chain(n, levels) && levels != []
    requires levels[|levels| - 1].index == |levels[|levels| - 1].tree.entries|
    ensures Chain(n, levels[..|levels| - 1]) && Items(n, levels[..|levels| - 1]) == Items(n, levels)
    ensures Weight(levels[..|levels| - 1]) == Weight(levels)
    ensures |levels| == 1 ==> Items(n, levels) == []
  {
    var l := levels[|levels| - 1];
    assert l.tree.entries[l.index..] == [];
    assert LevelItems(n, l) == [];
    assert Items(n, levels) == [] + Items(n, levels[..|levels| - 1]);
  }

  /** The stack after taking the next entry of the top node. */
  function Advance(levels: seq<Level>): seq<Level>
    requires levels != []
  {
    var l := levels[|levels| - 1];
    levels[..|levels| - 1] + [Level(l.tree, l.index + 1)]
  }

  /** The path of an entry, without the index name. */
  function PathOf(n: nat, t: Manifest, e: Entry): Str
    requires n <= |t.name|
  {
    t.name[n..] + e.name
  }

  /** Taking an entry gives the leaves below it, in their place. */
  lemma AdvanceTakes(n: nat, levels: seq<Level>)
    requires Chain(n, levels) && levels != []
    requires levels[|levels| - 1].index < |levels[|levels| - 1].tree.entries|
    ensures Chain(n, Advance(levels))
    ensures var l := levels[|levels| - 1]; var e := l.tree.entries[l.index];
      && Items(n, levels) == Under(l.tree.name[n..], EntryLeaves(e)) + Items(n, Advance(levels))
      && Weight(levels) == 1 + (if e.manifest.Some? then Size(e.manifest.value.entries) else 0) + Weight(Advance(levels))
  {
    hide ValidEntries, Leaves, EntryLeaves, Size;
    var init, l := levels[..|levels| - 1], levels[|levels| - 1];
    var next := Level(l.tree, l.index + 1);
    assert Advance(levels)[..|levels| - 1] == init;
    LevelSplit(n, l);
    assert Items(n, levels) == LevelItems(n, l) + Items(n, init);
    assert Items(n, Advance(levels)) == LevelItems(n, next) + Items(n, init);
  }

  lemma LevelSplit(n: nat, l: Level)
    requires n <= |l.tree.name| && l.index < |l.tree.entries|
    ensures var next := Level(l.tree, l.index + 1); var e := l.tree.entries[l.index];
      && LevelItems(n, l) == Under(l.tree.name[n..], EntryLeaves(e)) + LevelItems(n, next)
      && Size(l.tree.entries[l.index..]) ==
         1 + (if e.manifest.Some? then Size(e.manifest.value.entries) else 0) + Size(l.tree.entries[next.index..])
  {
    hide EntryLeaves;
    var es := l.tree.entries[l.index..];
    assert es[0] == l.tree.entries[l.index] && es[1..] == l.tree.entries[l.index + 1..];
    UnderAppend(l.tree.name[n..], EntryLeaves(es[0]), Leaves(es[1..]));
  }

  lemma UnderAppend(p: Str, xs: seq<Item>, ys: seq<Item>)
    ensures Under(p, xs + ys) == Under(p, xs) + Under(p, ys)
  {
  }

  lemma UnderNothing(xs: seq<Item>)
    ensures Under([], xs) == xs
  {
    assert forall i :: 0 <= i < |xs| ==> [] + xs[i].key == xs[i].key;
  }

  lemma StartItems(n: nat, name: Str, xs: seq<Item>)
    requires n == |name|
    ensures Items(n, []) == [] && Under(name[n..], xs) + Items(n, []) == xs
  {
    UnderNothing(xs);
    assert name[n..] == [];
  }

  /** Entering a branch gives the leaves below it, in their place. */
  lemma PushEnters(n: nat, levels: seq<Level>, child: Manifest)
    requires Chain(n, levels) && levels != [] && IsChild(levels[|levels| - 1], child)
    ensures Chain(n, levels + [Level(child, 0)])
    ensures var l := levels[|levels| - 1]; var e := l.tree.entries[l.index - 1];
      Items(n, levels + [Level(child, 0)]) == Under(l.tree.name[n..], EntryLeaves(e)) + Items(n, levels)
    ensures Weight(levels + [Level(child, 0)]) == Size(child.entries) + Weight(levels)
  {
    var l, top := levels[|levels| - 1], Level(child, 0);
    var e, all := l.tree.entries[l.index - 1], levels + [Level(child, 0)];
    assert ValidEntry(l.tree.name, e);
    assert all[..|all| - 1] == levels;
    assert child.entries[0..] == child.entries;
    assert child.name[n..] == l.tree.name[n..] + e.name;
    UnderUnder(l.tree.name[n..], e.name, Leaves(child.entries));
  }

  /** Every path under an entry starts with the entry's own path. */
  lemma UnderEntry(n: nat, t: Manifest, i: nat)
    requires ValidTree(t) && i < |t.entries| && n <= |t.name|
    ensures forall j :: 0 <= j < |EntryLeaves(t.entries[i])| ==>
      PathOf(n, t, t.entries[i]) <= Under(t.name[n..], EntryLeaves(t.entries[i]))[j].key
  {
    hide EntryLeaves;
    var f, p := t.entries[i], t.name[n..];
    assert ValidEntry(t.name, f);
    EntryLeavesStart(t.name, f);
    forall j | 0 <= j < |EntryLeaves(f)| ensures p + f.name <= p + EntryLeaves(f)[j].key {
      assert (p + EntryLeaves(f)[j].key)[|p|..] == EntryLeaves(f)[j].key;
    }
  }

  /** What is left after taking an entry; a leaf is the first thing taken. */
  lemma TakenItems(n: nat, levels: seq<Level>, all: seq<Item>, pos: nat)
    requires Chain(n, levels) && levels != [] && pos <= |all| && Items(n, levels) == all[pos..]
    requires levels[|levels| - 1].index < |levels[|levels| - 1].tree.entries|
    ensures Chain(n, Advance(levels))
    ensures var l := levels[|levels| - 1]; var f := l.tree.entries[l.index]; var k := |EntryLeaves(f)|;
      && pos + k <= |all| && Items(n, Advance(levels)) == all[pos + k..]
      && (forall j :: pos <= j < pos + k ==> PathOf(n, l.tree, f) <= all[j].key)
      && (f.etype.LeafEntry? ==> pos < |all| && k == 1 && all[pos] == Item(PathOf(n, l.tree, f), f.ref))
  {
    hide Items, Under, Leaves, ValidEntries, ValidEntry, Size;
    var l := levels[|levels| - 1];
    var f := l.tree.entries[l.index];
    AdvanceTakes(n, levels);
    var us, rest := Under(l.tree.name[n..], EntryLeaves(f)), Items(n, Advance(levels));
    assert (us + rest)[|us|..] == rest;
    assert all[pos..][|us|..] == all[pos + |us|..];
    UnderEntry(n, l.tree, l.index);
    forall j | pos <= j < pos + |us| ensures PathOf(n, l.tree, f) <= all[j].key {
      assert all[j] == all[pos..][j - pos] == us[j - pos];
    }
    if f.etype.LeafEntry? {
      assert (us + rest)[0] == us[0];
      assert all[pos..][0] == all[pos];
    }
  }

  /** Taking a branch and entering it leaves what there is to give as it was, and the weight
      less. */
  lemma EnteredItems(n: nat, levels: seq<Level>)
    requires Chain(n, levels) && levels != []
    requires levels[|levels| - 1].index < |levels[|levels| - 1].tree.entries|
    requires var l := levels[|levels| - 1]; l.tree.entries[l.index].etype.IntermediateEntry?
    ensures var l := levels[|levels| - 1]; var f := l.tree.entries[l.index];
      && f.manifest.Some? && Chain(n, Advance(levels) + [Level(f.manifest.value, 0)])
      && Items(n, Advance(levels) + [Level(f.manifest.value, 0)]) == Items(n, levels)
      && Weight(Advance(levels) + [Level(f.manifest.value, 0)]) < Weight(levels)
  {
    var l := levels[|levels| - 1];
    var f := l.tree.entries[l.index];
    assert ValidEntry(l.tree.name, f);
    AdvanceTakes(n, levels);
    PushEnters(n, Advance(levels), f.manifest.value);
  }

  lemma PushItems(n: nat, levels: seq<Level>, t: Manifest, i: nat)
    requires Chain(n, levels) && ValidTree(t) && i <= |t.entries| && n <= |t.name|
    requires levels == [] || IsChild(levels[|levels| - 1], t)
    ensures Chain(n, levels + [Level(t, i)])
    ensures Items(n, levels + [Level(t, i)]) == Under(t.name[n..], Leaves(t.entries[i..])) + Items(n, levels)
  {
    assert (levels + [Level(t, i)])[..|levels|] == levels;
  }

  // ----- The order of the stack -----

  lemma SuffixIsValid(base: Str, es: seq<Entry>, i: nat)
    requires ValidEntries(base, es) && i <= |es|
    ensures ValidEntries(base, es[i..])
  {
  }

  predicate AllAbove(x: Str, xs: seq<Item>) {
    forall k :: 0 <= k < |xs| ==> Less(x, xs[k].key)
  }

  predicate AllAtLeast(x: Str, xs: seq<Item>) {
    forall k :: 0 <= k < |xs| ==> AtMost(x, xs[k].key)
  }

  /** Everything under an entry comes before what its node lists after it. */
  lemma RestIsAbove(t: Manifest, i: nat, p: Str, y: Str)
    requires ValidTree(t) && i < |t.entries| && t.entries[i].name != [] && t.entries[i].name <= y
    ensures AllAbove(p + y, Under(p, Leaves(t.entries[i + 1..])))
  {
    var here := t.entries[i + 1..];
    SuffixIsValid(t.name, t.entries, i + 1);
    forall k | 0 <= k < |Leaves(here)| ensures Less(p + y, p + Leaves(here)[k].key) {
      LeavesHeads(t.name, here, k);
      var j :| 0 <= j < |here| && Head(Leaves(here)[k].key) == Head(here[j].name);
      assert here[j] == t.entries[i + 1 + j];
      LessUnderPrefix(p, y, Leaves(here)[k].key);
    }
  }

  /** Everything under a node comes before what its parent still has. */
  lemma ParentIsAbove(n: nat, l: Level, child: Manifest, x: Str)
    requires ValidTree(l.tree) && l.index <= |l.tree.entries| && n <= |l.tree.name| && IsChild(l, child)
    requires n <= |child.name| && child.name[n..] <= x
    ensures l.tree.name[n..] <= x && AllAbove(x, LevelItems(n, l))
  {
    hide Leaves, AllAbove, Under;
    var g, p := l.tree.entries[l.index - 1], l.tree.name[n..];
    assert ValidEntry(l.tree.name, g);
    assert child.name[n..] == p + g.name;
    PrefixTransitive(p, g.name, x);
    var y := x[|p|..];
    assert x == p + y;
    assert g.name <= y by {
      assert (p + g.name)[|p|..] == g.name;
      assert x[..|p + g.name|][|p|..] == y[..|g.name|];
    }
    RestIsAbove(l.tree, l.index - 1, p, y);
  }

  /** Everything under a node on the stack comes before what the nodes below it still have. */
  lemma {:induction false} LowerLevelsAreAbove(n: nat, levels: seq<Level>, x: Str)
    requires Chain(n, levels) && levels != [] && levels[|levels| - 1].tree.name[n..] <= x
    ensures AllAbove(x, Items(n, levels[..|levels| - 1]))
  {
    hide ValidEntries, IsChild, LevelItems, Less;
    var init := levels[..|levels| - 1];
    if init != [] {
      var l := init[|init| - 1];
      assert IsChild(l, levels[|levels| - 1].tree);
      ParentIsAbove(n, l, levels[|levels| - 1].tree, x);
      LowerLevelsAreAbove(n, init, x);
    }
  }

  /** The path of the next entry is at most everything the stack still has to give. */
  lemma NextPathIsLeast(n: nat, levels: seq<Level>)
    requires Chain(n, levels) && levels != []
    requires levels[|levels| - 1].index < |levels[|levels| - 1].tree.entries|
    ensures var l := levels[|levels| - 1];
      AllAtLeast(PathOf(n, l.tree, l.tree.entries[l.index]), Items(n, levels))
  {
    var l := levels[|levels| - 1];
    var here, e, p := l.tree.entries[l.index..], l.tree.entries[l.index], l.tree.name[n..];
    SuffixIsValid(l.tree.name, l.tree.entries, l.index);
    LowerLevelsAreAbove(n, levels, p + e.name);
    forall k | 0 <= k < |Leaves(here)| ensures AtMost(p + e.name, p + Leaves(here)[k].key) {
      LeastOfNode(l.tree.name, here, k);
      LessUnderPrefix(p, e.name, Leaves(here)[k].key);
    }
  }

  lemma LeastOfNode(base: Str, es: seq<Entry>, k: nat)
    requires ValidEntries(base, es) && k < |Leaves(es)|
    ensures AtMost(es[0].name, Leaves(es)[k].key)
  {
    assert ValidEntry(base, es[0]);
    if k < |EntryLeaves(es[0])| {
      EntryLeavesStart(base, es[0]);
      PrefixIsAtMost(es[0].name, Leaves(es)[k].key);
    } else {
      SuffixIsValid(base, es, 1);
      var m := k - |EntryLeaves(es[0])|;
      LeavesHeads(base, es[1..], m);
      var j :| 0 <= j < |es[1..]| && Head(Leaves(es[1..])[m].key) == Head(es[1..][j].name);
      assert es[1..][j] == es[j + 1];
      assert Leaves(es)[k] == Leaves(es[1..])[m];
    }
  }

  /** What the stack has to give is in byte order. */
  lemma {:induction false} ItemsAscend(n: nat, levels: seq<Level>)
    requires Chain(n, levels)
    ensures Ascending(Items(n, levels))
  {
    hide Leaves, ValidEntries, Under, LevelItems, Ascending, Less;
    if levels != [] {
      var l, init := levels[|levels| - 1], levels[..|levels| - 1];
      ItemsAscend(n, init);
      NodeAscends(n, l);
      forall i, j | 0 <= i < |LevelItems(n, l)| && 0 <= j < |Items(n, init)|
        ensures AtMost(LevelItems(n, l)[i].key, Items(n, init)[j].key)
      {
        LowerLevelsAreAbove(n, levels, LevelItems(n, l)[i].key);
        assert Less(LevelItems(n, l)[i].key, Items(n, init)[j].key);
      }
      AscendingJoin(LevelItems(n, l), Items(n, init));
    } else {
      NothingAscends();
    }
  }

  lemma NodeAscends(n: nat, l: Level)
    requires ValidTree(l.tree) && l.index <= |l.tree.entries| && n <= |l.tree.name|
    ensures Ascending(LevelItems(n, l))
    ensures forall i :: 0 <= i < |LevelItems(n, l)| ==> l.tree.name[n..] <= LevelItems(n, l)[i].key
  {
    hide Leaves, AtMost;
    var here, p := l.tree.entries[l.index..], l.tree.name[n..];
    SuffixIsValid(l.tree.name, l.tree.entries, l.index);
    LeavesAscend(l.tree.name, here);
    forall i, j | 0 <= i < j < |LevelItems(n, l)| ensures AtMost(LevelItems(n, l)[i].key, LevelItems(n, l)[j].key) {
      AtMostUnder(p, Leaves(here)[i].key, Leaves(here)[j].key);
    }
  }

  /** One step seen from the list of pairs: taking an entry passes `k` pairs. If its path is
      past the end, so are all that follow; a leaf is the first of them; a branch may be
      entered instead, and passes none. */
  lemma Taking(n: nat, levels: seq<Level>, all: seq<Item>, pos: nat, end: Str) returns (k: nat)
    requires Chain(n, levels) && levels != [] && pos <= |all| && Items(n, levels) == all[pos..]
    requires levels[|levels| - 1].index < |levels[|levels| - 1].tree.entries|
    ensures Chain(n, Advance(levels)) && pos + k <= |all| && Items(n, Advance(levels)) == all[pos + k..]
    ensures var l := levels[|levels| - 1]; var f := l.tree.entries[l.index]; var path := PathOf(n, l.tree, f);
      && (end != [] && !Less(path, end) ==> forall j :: pos <= j < |all| ==> !IsBelowEnd(all[j], end))
      && (f.etype.LeafEntry? ==> k == 1 && pos < |all| && all[pos] == Item(path, f.ref))
      && (forall j :: pos <= j < pos + k ==> path <= all[j].key)
      && (f.etype.IntermediateEntry? ==>
           f.manifest.Some? && Enters(n, levels, Advance(levels) + [Level(f.manifest.value, 0)], all, pos))
  {
    hide Leaves, EntryLeaves, Items, Weight, ValidEntries, Size, Advance;
    var l := levels[|levels| - 1];
    var f := l.tree.entries[l.index];
    var path := PathOf(n, l.tree, f);
    k := |EntryLeaves(f)|;
    NextPathIsLeast(n, levels);
    TakenItems(n, levels, all, pos);
    if f.etype.IntermediateEntry? {
      EnteredItems(n, levels);
    }
    if end != [] && !Less(path, end) {
      forall j | pos <= j < |all| ensures !IsBelowEnd(all[j], end) {
        assert all[pos..][j - pos] == all[j];
        if Less(all[j].key, end) {
          LessIsTransitive(path, all[j].key, end);
        }
      }
    }
  }

  predicate Enters(n: nat, levels: seq<Level>, levels': seq<Level>, all: seq<Item>, pos: nat)
    requires pos <= |all|
  {
    Chain(n, levels') && Items(n, levels') == all[pos..] && Weight(levels') < Weight(levels)
  }
}
