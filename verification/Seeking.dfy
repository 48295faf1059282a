/** What a seek makes of a tree, and when that is what it should be. */
module Seeking {
  import opened Bytes
  import opened Tree
  import opened Listing
  import opened Iteration

  // ----- The seek as the code performs it (pkg/collection/iterator.go:195-300) -----

  /** The seek stops at this entry: it, or the first leaf below it, is not smaller. */
  predicate StopsAt(e: Entry, key: Str) {
    || (e.name != [] && (key == [] || e.name[0] > key[0] || (e.etype.LeafEntry? && Less(key, e.name))))
    || (e.etype.LeafEntry? && e.name == key)
  }

  /** The seek goes on below this entry, with the key cut by the length of the entry's name:
      the name is a prefix of the key, or is greater than the start of the key. */
  predicate GoesBelow(e: Entry, key: Str) {
    e.etype.IntermediateEntry? && (e.name <= key || (|e.name| < |key| && Less(key[..|e.name|], e.name)))
  }

  /** The pairs that an iteration gives after seeking `key` in a node. */
  function SeekLeaves(es: seq<Entry>, key: Str): seq<Item>
    decreases es
  {
    if es == [] then []
    else
      var e, rest := es[0], es[1..];
      if StopsAt(e, key) then Leaves(es)
      else if GoesBelow(e, key) && e.manifest.Some? then
        Under(e.name, SeekLeaves(e.manifest.value.entries, key[|e.name|..])) + Leaves(rest)
      else SeekLeaves(rest, key)
  }

  /** The three cases of a seek at one entry. */
  lemma SeekStep(t: Manifest, i: nat, key: Str)
    requires i < |t.entries|
    ensures var e, es := t.entries[i], t.entries[i..];
      && (StopsAt(e, key) ==> SeekLeaves(es, key) == Leaves(es))
      && (!StopsAt(e, key) && GoesBelow(e, key) && e.manifest.Some? ==>
           SeekLeaves(es, key) ==
           Under(e.name, SeekLeaves(e.manifest.value.entries, key[|e.name|..])) + Leaves(t.entries[i + 1..]))
      && (!StopsAt(e, key) && !GoesBelow(e, key) ==> SeekLeaves(es, key) == SeekLeaves(t.entries[i + 1..], key))
  {
    assert t.entries[i..][1..] == t.entries[i + 1..];
  }

  lemma SeekEnd(t: Manifest, key: Str)
    ensures SeekLeaves(t.entries[|t.entries|..], key) == []
  {
  }

  /** The pairs below a branch, followed by the rest of its node. */
  lemma SeekJoins(n: nat, t: Manifest, i: nat, key: Str, below: seq<Item>)
    requires ValidTree(t) && i < |t.entries| && n <= |t.name|
    requires !StopsAt(t.entries[i], key) && GoesBelow(t.entries[i], key)
    ensures var e := t.entries[i]; var p := t.name[n..];
      && e.manifest.Some? && n <= |e.manifest.value.name|
      && Under(p, SeekLeaves(t.entries[i..], key)) + below ==
         Under(e.manifest.value.name[n..], SeekLeaves(e.manifest.value.entries, key[|e.name|..])) +
         (Under(p, Leaves(t.entries[i + 1..])) + below)
  {
    var e, p := t.entries[i], t.name[n..];
    assert ValidEntry(t.name, e);
    SeekStep(t, i, key);
    var xs := SeekLeaves(e.manifest.value.entries, key[|e.name|..]);
    UnderAppend(p, Under(e.name, xs), Leaves(t.entries[i + 1..]));
    UnderUnder(p, e.name, xs);
    assert e.manifest.value.name[n..] == p + e.name;
  }

  // ----- The seek as it should be -----

  /** The pairs whose keys are not smaller than `key`. */
  function NotSmaller(xs: seq<Item>, key: Str): seq<Item> {
    if xs == [] then []
    else (if AtMost(key, xs[0].key) then [xs[0]] else []) + NotSmaller(xs[1..], key)
  }

  lemma NotSmallerStep(xs: seq<Item>, key: Str)
    ensures xs == [] ==> NotSmaller(xs, key) == []
    ensures xs != [] ==>
      NotSmaller(xs, key) == (if AtMost(key, xs[0].key) then [xs[0]] else []) + NotSmaller(xs[1..], key)
  {
  }

  lemma {:induction false} NotSmallerAppend(xs: seq<Item>, ys: seq<Item>, key: Str)
    ensures NotSmaller(xs + ys, key) == NotSmaller(xs, key) + NotSmaller(ys, key)
  {
    hide AtMost;
    hide NotSmaller;
    NotSmallerStep(xs, key);
    NotSmallerStep(xs + ys, key);
    if xs == [] {
      assert xs + ys == ys;
    } else {
      assert (xs + ys)[1..] == xs[1..] + ys;
      NotSmallerAppend(xs[1..], ys, key);
    }
  }

  lemma {:induction false} AllNotSmaller(xs: seq<Item>, key: Str)
    requires AllAtLeast(key, xs)
    ensures NotSmaller(xs, key) == xs
  {
    if xs != [] {
      assert xs[1..][..] == xs[1..];
      AllNotSmaller(xs[1..], key);
    }
  }

  lemma {:induction false} NoneNotSmaller(xs: seq<Item>, key: Str)
    requires forall k :: 0 <= k < |xs| ==> Less(xs[k].key, key)
    ensures NotSmaller(xs, key) == []
  {
    if xs != [] {
      LessIsTotal(xs[0].key, key);
      NoneNotSmaller(xs[1..], key);
    }
  }

  lemma {:induction false} NotSmallerUnder(p: Str, xs: seq<Item>, key: Str)
    ensures NotSmaller(Under(p, xs), p + key) == Under(p, NotSmaller(xs, key))
  {
    if xs != [] {
      NotSmallerUnder(p, xs[1..], key);
      AtMostUnder(p, key, xs[0].key);
      assert Under(p, xs)[1..] == Under(p, xs[1..]);
      var here := if AtMost(key, xs[0].key) then [xs[0]] else [];
      UnderAppend(p, here, NotSmaller(xs[1..], key));
    }
  }

  lemma UnderIsInjective(p: Str, xs: seq<Item>, ys: seq<Item>)
    ensures Under(p, xs) == Under(p, ys) <==> xs == ys
  {
    if Under(p, xs) == Under(p, ys) {
      assert |xs| == |ys|;
      forall i | 0 <= i < |xs| ensures xs[i] == ys[i] {
        assert Under(p, xs)[i] == Under(p, ys)[i];
        assert xs[i].key == (p + xs[i].key)[|p|..] && ys[i].key == (p + ys[i].key)[|p|..];
      }
    }
  }

  lemma AppendIsInjective(xs: seq<Item>, ys: seq<Item>, zs: seq<Item>)
    ensures xs + zs == ys + zs <==> xs == ys
  {
    if xs + zs == ys + zs {
      assert |xs| == |ys|;
      assert xs == (xs + zs)[..|xs|] == (ys + zs)[..|ys|] == ys;
    }
  }

  /** Nothing that follows a larger first byte is smaller than the key. */
  lemma LargerHeads(base: Str, es: seq<Entry>, key: Str)
    requires ValidEntries(base, es) && forall i :: 0 <= i < |es| ==> Head(key) < Head(es[i].name)
    ensures SeekLeaves(es, key) == Leaves(es) && NotSmaller(Leaves(es), key) == Leaves(es)
  {
    forall k | 0 <= k < |Leaves(es)| ensures AtMost(key, Leaves(es)[k].key) {
      LeavesHeads(base, es, k);
    }
    AllNotSmaller(Leaves(es), key);
  }

  /** A greater name makes everything below it greater, a smaller one that is no prefix of the
      key makes everything below it smaller. */
  lemma {:induction false} DivergingNames(key: Str, name: Str, x: Str)
    ensures Less(key, name) ==> Less(key, name + x)
    ensures Less(name, key) && !(name <= key) ==> Less(name + x, key)
  {
    if key != [] && name != [] && key[0] == name[0] {
      DivergingNames(key[1..], name[1..], x);
      assert (name + x)[1..] == name[1..] + x;
      assert name[1..] <= key[1..] ==> name <= key by {
        assert key == [key[0]] + key[1..] && name == [name[0]] + name[1..];
      }
    }
  }

  /** Comparing the start of the key with a shorter name compares the key with it. */
  lemma CutComparison(key: Str, name: Str)
    requires |name| <= |key| && !(name <= key)
    ensures Less(key[..|name|], name) <==> Less(key, name)
  {
    var a, x := key[..|name|], key[|name|..];
    assert key == a + x;
    LessIsTotal(a, name);
    LessIsTotal(key, name);
    DivergingNames(name, a, x);
    assert a <= name ==> a == name;
  }

  // ----- The seek, said of names and bytes only -----

  /** The first entry whose first byte is larger than the key's. */
  function LargerFrom(es: seq<Entry>, key: Str): (p: nat)
    ensures p <= |es|
    ensures forall i :: 0 <= i < p ==> Head(es[i].name) <= Head(key)
    ensures p < |es| ==> Head(es[p].name) > Head(key)
  {
    if es == [] || Head(es[0].name) > Head(key) then 0 else 1 + LargerFrom(es[1..], key)
  }

  /** What a seek keeps of the entry that shares the key's first byte. A branch that is greater than
      the key is passed over, or sought with what the key has after as many bytes as its name has,
      though its name does not start the key. */
  function KeptOf(e: Entry, key: Str): seq<Item> {
    if e.etype.LeafEntry? then
      if AtMost(key, e.name) then [Item(e.name, e.ref)] else []
    else if e.manifest.None? then []
    else if e.name <= key || (Less(key, e.name) && |e.name| < |key|) then
      Under(e.name, SeekLeaves(e.manifest.value.entries, key[|e.name|..]))
    else []
  }

  /** A seek keeps what it keeps of the entry that shares the key's first byte, and all that is
      behind it; without such an entry, all that has larger first bytes. */
  lemma {:induction false} SeekByNames(base: Str, es: seq<Entry>, key: Str)
    requires ValidEntries(base, es)
    ensures key == [] ==> SeekLeaves(es, key) == Leaves(es)
    ensures key != [] ==> var i := Slot(es, key);
      SeekLeaves(es, key) ==
      if i == |es| then Leaves(es[LargerFrom(es, key)..]) else KeptOf(es[i], key) + Leaves(es[i + 1..])
    decreases es
  {
    hide Slot, KeptOf, Leaves, LargerFrom, SeekLeaves, StopsAt, GoesBelow, ValidEntry;
    if es != [] {
      var e, rest := es[0], es[1..];
      assert ValidEntry(base, e);
      SeekUnfolds(es, key);
      OtherHead(base, e, key);
      SuffixIsValid(base, es, 1);
      if key != [] {
        SlotSteps(es, key);
        LargerSteps(es, key);
        if Head(e.name) > Head(key) {
          NoSlotBehind(base, es, key);
          assert es[0..] == es;
        } else if Head(e.name) == Head(key) {
          SeekHere(base, es, key);
        } else {
          SeekByNames(base, rest, key);
          SuffixSteps(es, key);
        }
      }
    } else {
      NoEntries(key);
    }
  }

  /** Any entry stops a seek of the empty key, and one of a larger first byte any seek; one of a
      smaller first byte is passed. */
  lemma OtherHead(base: Str, e: Entry, key: Str)
    requires ValidEntry(base, e)
    ensures key == [] || Head(e.name) > Head(key) ==> StopsAt(e, key)
    ensures key != [] && Head(e.name) < Head(key) ==> !StopsAt(e, key) && !GoesBelow(e, key)
  {
  }

  lemma NoEntries(key: Str)
    ensures SeekLeaves([], key) == Leaves([]) == [] && Slot([], key) == 0 && LargerFrom([], key) == 0
  {
  }

  lemma SlotSteps(es: seq<Entry>, key: Str)
    requires es != []
    ensures Slot(es, key) == if Head(es[0].name) == Head(key) then 0 else 1 + Slot(es[1..], key)
  {
  }

  lemma LargerSteps(es: seq<Entry>, key: Str)
    requires es != []
    ensures LargerFrom(es, key) == if Head(es[0].name) > Head(key) then 0 else 1 + LargerFrom(es[1..], key)
  {
  }

  lemma SuffixSteps(es: seq<Entry>, key: Str)
    requires es != []
    ensures var p, i := LargerFrom(es[1..], key), Slot(es[1..], key);
      && es[1..][p..] == es[1 + p..]
      && (i < |es| - 1 ==> es[1..][i] == es[i + 1] && es[1..][i + 1..] == es[i + 2..])
  {
  }

  lemma NoSlotBehind(base: Str, es: seq<Entry>, key: Str)
    requires ValidEntries(base, es) && es != [] && Head(es[0].name) > Head(key)
    ensures Slot(es, key) == |es|
  {
    hide ValidEntry;
    SlotIsUnique(es, key, |es|);
  }

  /** Where the seek stops, and where it goes below, among entries of the key's first byte. */
  lemma StopsHere(base: Str, e: Entry, key: Str)
    requires ValidEntry(base, e) && key != [] && Head(e.name) == Head(key)
    ensures StopsAt(e, key) <==> e.etype.LeafEntry? && AtMost(key, e.name)
    ensures GoesBelow(e, key) <==>
      e.etype.IntermediateEntry? && (e.name <= key || (Less(key, e.name) && |e.name| < |key|))
  {
    if !(e.name <= key) && |e.name| < |key| {
      CutComparison(key, e.name);
    }
  }

  lemma SeekUnfolds(es: seq<Entry>, key: Str)
    requires es != []
    ensures SeekLeaves(es, key) ==
            if StopsAt(es[0], key) then Leaves(es)
            else if GoesBelow(es[0], key) && es[0].manifest.Some? then
              Under(es[0].name, SeekLeaves(es[0].manifest.value.entries, key[|es[0].name|..])) + Leaves(es[1..])
            else SeekLeaves(es[1..], key)
  {
  }

  /** At the entry that shares the key's first byte. */
  lemma SeekHere(base: Str, es: seq<Entry>, key: Str)
    requires ValidEntries(base, es) && es != [] && key != [] && Head(es[0].name) == Head(key)
    ensures SeekLeaves(es, key) == KeptOf(es[0], key) + Leaves(es[1..])
  {
    hide SeekLeaves, Leaves, NotSmaller, StopsAt, GoesBelow, Less, ValidEntry, EntryLeaves;
    var e, rest := es[0], es[1..];
    assert ValidEntry(base, e);
    SuffixIsValid(base, es, 1);
    LargerHeads(base, rest, key);
    StopsHere(base, e, key);
    SeekUnfolds(es, key);
    LeavesSteps(es);
    LeafOrChild(base, e);
    assert [] + Leaves(rest) == Leaves(rest);
  }

  lemma LeafOrChild(base: Str, e: Entry)
    requires ValidEntry(base, e)
    ensures e.etype.LeafEntry? ==> EntryLeaves(e) == [Item(e.name, e.ref)]
    ensures e.etype.IntermediateEntry? ==> e.manifest.Some?
  {
  }

  /** Some entry of the node stops the seek, or is one to go on below. */
  predicate Meets(es: seq<Entry>, key: Str) {
    exists i :: 0 <= i < |es| && (StopsAt(es[i], key) || GoesBelow(es[i], key))
  }

  /** Which that is, said of names and bytes. */
  lemma MeetsByNames(base: Str, es: seq<Entry>, key: Str)
    requires ValidEntries(base, es)
    ensures key == [] ==> (Meets(es, key) <==> es != [])
    ensures key != [] ==> var i := Slot(es, key);
      Meets(es, key) <==>
        || LargerFrom(es, key) < |es|
        || (i < |es| && es[i].etype.LeafEntry? && AtMost(key, es[i].name))
        || (i < |es| && es[i].etype.IntermediateEntry? &&
             (es[i].name <= key || (Less(key, es[i].name) && |es[i].name| < |key|)))
  {
    hide Slot, LargerFrom, StopsAt, GoesBelow, ValidEntry, Less;
    forall j | 0 <= j < |es|
      ensures key == [] ==> StopsAt(es[j], key)
      ensures key != [] && Head(es[j].name) > Head(key) ==> StopsAt(es[j], key)
      ensures key != [] && Head(es[j].name) < Head(key) ==> !StopsAt(es[j], key) && !GoesBelow(es[j], key)
    {
      assert ValidEntry(base, es[j]);
      OtherHead(base, es[j], key);
    }
    if key != [] {
      var i := Slot(es, key);
      if i < |es| {
        assert ValidEntry(base, es[i]);
        StopsHere(base, es[i], key);
      }
      if j :| 0 <= j < |es| && (StopsAt(es[j], key) || GoesBelow(es[j], key)) && Head(es[j].name) == Head(key) {
        assert j == i;
      }
    } else if es != [] {
      assert StopsAt(es[0], key);
    }
  }

  // ----- When the seek is exact -----

  /** Every greater branch met under the key's own first byte is without keys, or is kept whole: it
      is shorter than the key, and so sought with a rest of the key that no key below it is smaller
      than. */
  predicate SeekIsExact(es: seq<Entry>, key: Str)
    decreases es
  {
    var i := Slot(es, key);
    key == [] || i == |es| || es[i].etype.LeafEntry? || es[i].manifest.None? ||
    var e, below := es[i], es[i].manifest.value.entries;
    if e.name <= key then SeekIsExact(below, key[|e.name|..])
    else if !Less(key, e.name) then true
    else if |e.name| < |key| then
      SeekIsExact(below, key[|e.name|..]) && AllAtLeast(key[|e.name|..], Leaves(below))
    else Leaves(below) == []
  }

  /** The guard a caller can read off the nodes: no such branch is met at all. */
  predicate NoGreaterBranch(es: seq<Entry>, key: Str)
    decreases es
  {
    var i := Slot(es, key);
    key == [] || i == |es| || es[i].etype.LeafEntry? || es[i].manifest.None? ||
    if es[i].name <= key then NoGreaterBranch(es[i].manifest.value.entries, key[|es[i].name|..])
    else Less(es[i].name, key)
  }

  /** What should be kept: of the entry that shares the key's first byte what is not smaller, and all
      that is behind it. */
  lemma {:induction false} NotSmallerByNames(base: Str, es: seq<Entry>, key: Str)
    requires ValidEntries(base, es) && key != []
    ensures var i := Slot(es, key);
      NotSmaller(Leaves(es), key) ==
      if i == |es| then Leaves(es[LargerFrom(es, key)..])
      else NotSmaller(EntryLeaves(es[i]), key) + Leaves(es[i + 1..])
    decreases es
  {
    hide Slot, Leaves, LargerFrom, NotSmaller, EntryLeaves;
    if es != [] {
      var e, rest := es[0], es[1..];
      assert ValidEntry(base, e);
      SuffixIsValid(base, es, 1);
      LeavesSteps(es);
      NotSmallerAppend(EntryLeaves(e), Leaves(rest), key);
      SlotSteps(es, key);
      LargerSteps(es, key);
      if Head(e.name) > Head(key) {
        LargerHeads(base, es, key);
        NoSlotBehind(base, es, key);
        assert es[0..] == es;
      } else if Head(e.name) == Head(key) {
        LargerHeads(base, rest, key);
      } else {
        NotSmallerByNames(base, rest, key);
        SmallerHead(base, e, key);
        SuffixSteps(es, key);
        assert [] + NotSmaller(Leaves(rest), key) == NotSmaller(Leaves(rest), key);
      }
    } else {
      NoEntries(key);
      NothingNotSmaller(key);
    }
  }

  lemma LeavesSteps(es: seq<Entry>)
    requires es != []
    ensures Leaves(es) == EntryLeaves(es[0]) + Leaves(es[1..])
  {
  }

  lemma NothingNotSmaller(key: Str)
    ensures NotSmaller([], key) == []
  {
  }

  lemma SmallerHead(base: Str, e: Entry, key: Str)
    requires ValidEntry(base, e) && Head(e.name) < Head(key)
    ensures NotSmaller(EntryLeaves(e), key) == []
  {
    EntryLeavesStart(base, e);
    NoneNotSmaller(EntryLeaves(e), key);
  }

  /** A seek never keeps a key that is smaller. */
  lemma {:induction false} SeekKeepsNoSmaller(base: Str, es: seq<Entry>, key: Str)
    requires ValidEntries(base, es)
    ensures AllAtLeast(key, SeekLeaves(es, key))
    decreases es
  {
    hide Slot, Leaves, LargerFrom, AtMost, SeekLeaves, KeptOf;
    SeekByNames(base, es, key);
    if key == [] {
      NothingIsSmaller(SeekLeaves(es, key));
    } else {
      var i := Slot(es, key);
      if i == |es| {
        var p := LargerFrom(es, key);
        SuffixIsValid(base, es, p);
        BehindIsGreater(base, es, p, key);
      } else {
        SuffixIsValid(base, es, i + 1);
        BehindIsGreater(base, es, i + 1, key);
        assert ValidEntry(base, es[i]);
        KeptIsNoSmaller(base, es, i, key);
      }
    }
  }

  lemma NothingIsSmaller(xs: seq<Item>)
    ensures AllAtLeast([], xs)
  {
  }

  lemma BehindIsGreater(base: Str, es: seq<Entry>, p: nat, key: Str)
    requires ValidEntries(base, es) && p <= |es| && forall i :: p <= i < |es| ==> Head(key) < Head(es[i].name)
    ensures AllAtLeast(key, Leaves(es[p..]))
  {
    SuffixIsValid(base, es, p);
    var here := es[p..];
    forall k | 0 <= k < |Leaves(here)| ensures AtMost(key, Leaves(here)[k].key) {
      LeavesHeads(base, here, k);
      var j :| 0 <= j < |here| && Head(Leaves(here)[k].key) == Head(here[j].name);
      assert here[j] == es[p + j];
    }
  }

  lemma {:induction false} KeptIsNoSmaller(base: Str, es: seq<Entry>, i: nat, key: Str)
    requires ValidEntries(base, es) && i < |es| && ValidEntry(base, es[i])
    ensures AllAtLeast(key, KeptOf(es[i], key))
    decreases es, 0
  {
    hide Leaves, SeekLeaves;
    var e := es[i];
    if e.etype.IntermediateEntry? && (e.name <= key || (Less(key, e.name) && |e.name| < |key|)) {
      var below, k := e.manifest.value.entries, key[|e.name|..];
      var xs := SeekLeaves(below, k);
      if e.name <= key {
        SeekKeepsNoSmaller(base + e.name, below, k);
        assert key == e.name + k;
      }
      forall j | 0 <= j < |xs| ensures AtMost(key, e.name + xs[j].key) {
        AtMostUnder(e.name, k, xs[j].key);
        DivergingNames(key, e.name, xs[j].key);
      }
    }
  }

  /** A seek keeps all of a node exactly if it is exact and nothing in the node is smaller. */
  lemma KeepsAll(base: Str, es: seq<Entry>, key: Str)
    requires ValidEntries(base, es)
    requires SeekLeaves(es, key) == NotSmaller(Leaves(es), key) <==> SeekIsExact(es, key)
    ensures SeekLeaves(es, key) == Leaves(es) <==> SeekIsExact(es, key) && AllAtLeast(key, Leaves(es))
  {
    hide SeekIsExact, Leaves, SeekLeaves;
    if AllAtLeast(key, Leaves(es)) {
      AllNotSmaller(Leaves(es), key);
    }
    SeekKeepsNoSmaller(base, es, key);
  }

  /** A seek is exact if and only if every greater branch it meets under the key's own first byte is
      without keys or is kept whole. */
  lemma {:induction false} SeekExactly(base: Str, es: seq<Entry>, key: Str)
    requires ValidEntries(base, es)
    ensures SeekLeaves(es, key) == NotSmaller(Leaves(es), key) <==> SeekIsExact(es, key)
    decreases es
  {
    hide Slot, Leaves, LargerFrom, AtMost, SeekLeaves, NotSmaller, EntryLeaves, KeptOf;
    SeekByNames(base, es, key);
    if key == [] {
      NothingIsSmaller(Leaves(es));
      AllNotSmaller(Leaves(es), key);
    } else {
      NotSmallerByNames(base, es, key);
      var i := Slot(es, key);
      if i < |es| {
        assert ValidEntry(base, es[i]);
        EntryExactly(base, es, i, key);
        AppendIsInjective(KeptOf(es[i], key), NotSmaller(EntryLeaves(es[i]), key), Leaves(es[i + 1..]));
      }
    }
  }

  lemma {:induction false} EntryExactly(base: Str, es: seq<Entry>, i: nat, key: Str)
    requires ValidEntries(base, es) && key != [] && i == Slot(es, key) && i < |es| && ValidEntry(base, es[i])
    ensures KeptOf(es[i], key) == NotSmaller(EntryLeaves(es[i]), key) <==> SeekIsExact(es, key)
    decreases es, 0
  {
    hide Leaves, SeekLeaves, NotSmaller, Slot;
    var e := es[i];
    LessIsTotal(key, e.name);
    if e.etype.LeafEntry? {
      LeafExactly(e, key);
    } else {
      var below := e.manifest.value.entries;
      BranchNotSmaller(base, e, key);
      if e.name <= key {
        SeekExactly(base + e.name, below, key[|e.name|..]);
        UnderIsInjective(e.name, SeekLeaves(below, key[|e.name|..]), NotSmaller(Leaves(below), key[|e.name|..]));
      } else if Less(key, e.name) && |e.name| < |key| {
        SeekExactly(base + e.name, below, key[|e.name|..]);
        KeepsAll(base + e.name, below, key[|e.name|..]);
        UnderIsInjective(e.name, SeekLeaves(below, key[|e.name|..]), Leaves(below));
      } else if Less(key, e.name) {
        assert |Under(e.name, Leaves(below))| == |Leaves(below)|;
      }
    }
  }

  lemma LeafExactly(e: Entry, key: Str)
    requires e.etype.LeafEntry?
    ensures KeptOf(e, key) == NotSmaller(EntryLeaves(e), key)
  {
    assert EntryLeaves(e)[1..] == [];
  }

  /** What of a branch is not smaller. */
  lemma BranchNotSmaller(base: Str, e: Entry, key: Str)
    requires ValidEntry(base, e) && e.etype.IntermediateEntry?
    ensures var below := Leaves(e.manifest.value.entries);
      NotSmaller(EntryLeaves(e), key) ==
      if e.name <= key then Under(e.name, NotSmaller(below, key[|e.name|..]))
      else if Less(key, e.name) then Under(e.name, below)
      else []
  {
    var xs, below := EntryLeaves(e), Leaves(e.manifest.value.entries);
    LessIsTotal(key, e.name);
    if e.name <= key {
      assert key == e.name + key[|e.name|..];
      NotSmallerUnder(e.name, below, key[|e.name|..]);
    } else {
      forall k | 0 <= k < |xs|
        ensures Less(key, e.name) ==> Less(key, xs[k].key)
        ensures Less(e.name, key) ==> Less(xs[k].key, key)
      {
        DivergingNames(key, e.name, below[k].key);
      }
      if Less(key, e.name) {
        AllNotSmaller(xs, key);
      } else {
        NoneNotSmaller(xs, key);
      }
    }
  }

  /** The guard suffices: without a greater branch on the way, a seek is exact. */
  lemma {:induction false} GuardSuffices(base: Str, es: seq<Entry>, key: Str)
    requires ValidEntries(base, es) && NoGreaterBranch(es, key)
    ensures SeekLeaves(es, key) == NotSmaller(Leaves(es), key)
  {
    GuardIsExact(base, es, key);
    SeekExactly(base, es, key);
  }

  lemma {:induction false} GuardIsExact(base: Str, es: seq<Entry>, key: Str)
    requires ValidEntries(base, es) && NoGreaterBranch(es, key)
    ensures SeekIsExact(es, key)
    decreases es
  {
    hide Slot;
    var i := Slot(es, key);
    if key != [] && i < |es| && es[i].etype.IntermediateEntry? {
      assert ValidEntry(base, es[i]);
      LessIsTotal(key, es[i].name);
      if es[i].name <= key {
        GuardIsExact(base + es[i].name, es[i].manifest.value.entries, key[|es[i].name|..]);
      }
    }
  }

  /** A stored key meets no greater branch on its way, so seeking it is exact. */
  lemma {:induction false} StoredKeysAreGuarded(base: Str, es: seq<Entry>, key: Str)
    requires ValidEntries(base, es) && Find(es, key).Some?
    ensures NoGreaterBranch(es, key)
    decreases es
  {
    var e := es[Slot(es, key)];
    assert ValidEntry(base, e);
    if key != [] && e.etype.IntermediateEntry? {
      StoredKeysAreGuarded(base + e.name, e.manifest.value.entries, key[|e.name|..]);
    }
  }
}
