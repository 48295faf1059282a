/** Inputs on which the code does something that its users might not expect. */
module Pitfalls {
  import opened Bytes
  import opened Tree
  import opened Insert
  import opened Listing
  import opened Storage
  import opened Remove
  import opened Steps
  import opened Shadowing
  import opened Runs
  import opened Merge
  import opened Flush
  import opened DiskPut
  import opened AfterFlush
  import opened Crash
  import opened Seeking

  /** The root that an index starts from, and the one that a batch starts from, which is not
      mutable. */
  function Empty(name: Str, mutable: bool): Manifest {
    Manifest(name, mutable, [])
  }

  lemma RunOfOne(t: Manifest, a: Op)
    ensures Run(t, [a]) == Step(t, a)
  {
    assert [a][1..] == [];
  }

  lemma RunOfTwo(t: Manifest, a: Op, b: Op)
    ensures Run(t, [a, b]) == Step(Step(t, a), b)
  {
    assert [a, b][1..] == [b] && [b][1..] == [];
    assert Run(Step(t, a), [b]) == Run(Step(Step(t, a), b), []);
  }

  lemma FirstPut(name: Str, mutable: bool, key: Str, value: Str, apnd: bool)
    ensures PutTree(Empty(name, mutable), key, value, apnd) == Empty(name, mutable).(entries := [LeafOf(key, [value])])
  {
    NoDuplicate([], LeafOf(key, [value]));
  }

  lemma FrontAnswers(es: seq<Entry>, key: Str)
    requires es != [] && es[0].etype.LeafEntry? && es[0].name == key
    ensures Lookup(es, key) == Some(es[0].ref) && RefsOf(Scan(es, key)) == Some(es[0].ref) && Taker(es, key) == Some(es[0])
  {
    SlotIsUnique(es, key, 0);
    assert Find(es, key) == EntryFind(es[0], key) == Some(es[0]);
    ScanSlotIsUnique(es, key, 0);
    ScanIsTaker(es, key);
  }

  /** The tree of two keys that share a non-empty start: the branch keeps the values of the first
      key, which mean nothing there. */
  lemma TwoKeys(name: Str, mutable: bool, start: Str, x: Str, y: Str, a: Str, b: Str)
    requires start != [] && Head(x) != Head(y)
    ensures Run(Empty(name, mutable), [PutOp(start + x, a, false), PutOp(start + y, b, false)]) ==
            Empty(name, mutable).(entries := [BranchTo(start, [a], Pair(name + start, LeafOf(y, [b]), LeafOf(x, [a])))])
  {
    FirstPut(name, mutable, start + x, a, false);
    var t := PutTree(Empty(name, mutable), start + x, a, false);
    SlotIsUnique(t.entries, start + y, 0);
    SplitPut(t, 0, start, x, y, b, false);
    SplitShape(name, t.entries[0], start, x, y, b);
    RunOfTwo(Empty(name, mutable), PutOp(start + x, a, false), PutOp(start + y, b, false));
  }

  // ----- Appending -----

  /** An append to a key that another stored key extends loses the values it should keep. */
  lemma AppendLosesValues(name: Str, key: Str, x: Str, a: Str, b: Str, c: Str)
    requires x != []
    ensures MapOf(Run(Empty(name, true), [PutOp(key, a, true), PutOp(key + x, b, true)]))[key := [c]] ==
            MapOf(Run(Empty(name, true), [PutOp(key, a, true), PutOp(key + x, b, true), PutOp(key, c, true)]))
    ensures MapOf(Run(Empty(name, true), [PutOp(key, a, true), PutOp(key + x, b, true)])) == map[key := [a], key + x := [b]]
  {
    hide Shadows, Shadowless, ShadowlessKeys, Contents, Leaves, Bushy, PutStep;
    NothingStored(name);
    var p, q, r := PutOp(key, a, true), PutOp(key + x, b, true), PutOp(key, c, true);
    PutRunIsMapRun(Empty(name, true), [p, q]);
    PutRunIsMapRun(Empty(name, true), [p, q, r]);
    var m0, m1, m2 := MapOf(Empty(name, true)), map[key := [a]], map[key := [a], key + x := [b]];
    NewKey(m0, p);
    NewKey(m1, q);
    ExtendedKey(m2, key, x);
    ShadowedKey(m2, r);
    RunOfThree(m0, p, q, r);
  }

  lemma NothingStored(name: Str)
    ensures MapOf(Empty(name, true)) == map[] && ValidTree(Empty(name, true)) && Bushy(Empty(name, true).entries)
  {
  }

  lemma ExtendedKey(m: map<Str, Refs>, key: Str, x: Str)
    requires key in m && key + x in m && x != []
    ensures Shadows(m, key)
  {
    assert key < key + x;
  }

  lemma RunOfThree(m: map<Str, Refs>, p: Op, q: Op, r: Op)
    requires p.PutOp? && q.PutOp? && r.PutOp?
    ensures PutRun(m, [p, q]) == PutStep(PutStep(m, p), q)
    ensures PutRun(m, [p, q, r]) == PutStep(PutStep(PutStep(m, p), q), r)
  {
    hide PutStep;
    assert [p, q, r][1..] == [q, r] && [q, r][1..] == [r] && [r][1..] == [];
    assert [p, q][1..] == [q] && [q][1..] == [];
    var m1 := PutStep(m, p);
    var m2 := PutStep(m1, q);
    assert PutRun(m, [p, q]) == PutRun(m1, [q]) == PutRun(m2, []);
    assert PutRun(m, [p, q, r]) == PutRun(m1, [q, r]) == PutRun(m2, [r]) == PutRun(PutStep(m2, r), []);
  }

  lemma NewKey(m: map<Str, Refs>, op: Op)
    requires op.PutOp? && op.key !in m
    ensures PutStep(m, op) == m[op.key := [op.value]]
  {
    assert [] + [op.value] == [op.value];
  }

  lemma ShadowedKey(m: map<Str, Refs>, op: Op)
    requires op.PutOp? && Shadows(m, op.key)
    ensures PutStep(m, op) == m[op.key := [op.value]]
  {
    assert [] + [op.value] == [op.value];
  }

  // ----- Flushing -----

  /** After two puts of the empty key, the flush brings the older value back. */
  lemma FlushRevivesValue(name: Str, a: Str, b: Str)
    requires a != b
    ensures var t := Run(Empty(name, false), [PutOp([], a, false), PutOp([], b, false)]);
      && ValidTree(t) && Lookup(t.entries, []) == Some([b]) && !SurvivesFlush(t.entries, [])
      && Lookup(Merged([], t.entries), []) == Some([a])
  {
    FirstPut(name, false, [], a, false);
    RunOfTwo(Empty(name, false), PutOp([], a, false), PutOp([], b, false));
    var t := Run(Empty(name, false), [PutOp([], a, false), PutOp([], b, false)]);
    var e, f := LeafOf([], [b]), LeafOf([], [a]);
    assert t.entries == [e] + [f] == [e, f];
    assert ValidEntry(name, e) && ValidEntry(name, f);
    assert [e, f][..1] == [e] && [e][..0] == [];
    assert Merged([], [e]) == [e];
    assert Merged([], [e, f]) == [f] + [e] == [f, e];
    FrontAnswers([e, f], []);
    FrontAnswers([f, e], []);
    FlushedLookup(name, [e, f], []);
    assert e.ref[0] != f.ref[0];
  }

  /** A batch put of a key that is on disk in a leaf of the root is lost: the merge adds it behind
      the entry that takes the key. */
  lemma MergeLosesPut(name: Str, key: Str, a: Str, b: Str)
    requires key != [] && a != b
    ensures var d := Run(Empty(name, true), [PutOp(key, a, false)]); var m := Run(Empty(name, false), [PutOp(key, b, false)]);
      && Lookup(m.entries, key) == Some([b]) && !MergesAsUnion(d.entries, m.entries, key)
      && RefsOf(Scan(Merged(d.entries, m.entries), key)) == Some([a])
      && Merged(d.entries, m.entries) == d.entries + m.entries
  {
    hide Run, Step, Lookup, Merged, Scan, Taker;
    FirstPut(name, true, key, a, false);
    FirstPut(name, false, key, b, false);
    RunOfOne(Empty(name, true), PutOp(key, a, false));
    RunOfOne(Empty(name, false), PutOp(key, b, false));
    StepOfPut(Empty(name, true), key, a);
    StepOfPut(Empty(name, false), key, b);
    var e, f := LeafOf(key, [a]), LeafOf(key, [b]);
    AddedBehind(e, f);
    FrontAnswers([e], key);
    FrontAnswers([f], key);
    FrontAnswers([e, f], key);
    assert [a][0] != [b][0];
  }

  /** Two keys that share their first byte, one on disk and one in the batch, are both found, though
      the merged root has two entries of that first byte. */
  lemma MergeKeepsBoth(name: Str, key: Str, other: Str, a: Str, b: Str)
    requires key != [] && other != [] && key[0] == other[0] && key != other
    ensures var d := Run(Empty(name, true), [PutOp(key, a, false)]); var m := Run(Empty(name, false), [PutOp(other, b, false)]);
      && !Mergeable(d.entries, m.entries)
      && RefsOf(Scan(Merged(d.entries, m.entries), key)) == Some([a])
      && RefsOf(Scan(Merged(d.entries, m.entries), other)) == Some([b])
  {
    hide Run, Step, Lookup, Merged, Scan, Taker;
    FirstPut(name, true, key, a, false);
    FirstPut(name, false, other, b, false);
    RunOfOne(Empty(name, true), PutOp(key, a, false));
    RunOfOne(Empty(name, false), PutOp(other, b, false));
    StepOfPut(Empty(name, true), key, a);
    StepOfPut(Empty(name, false), other, b);
    var e, f := LeafOf(key, [a]), LeafOf(other, [b]);
    LeafIsValid(name, e);
    LeafIsValid(name, f);
    MergedLookup(name, [e], [f], key);
    MergedLookup(name, [e], [f], other);
    FrontAnswers([e], key);
    FrontAnswers([f], other);
    assert Taker([e], other) == None by { FirstTaker(name, [e], other, 1); }
    assert Head([e][0].name) == Head([f][0].name) && [e][0] != [f][0];
  }

  /** A later put through the same handle can lose the second of two such keys: it splits the first
      entry, and the branch that comes of it takes what the second entry took. */
  lemma PutAfterMergeLosesKey(name: Str, start: Str, x: Byte, y: Byte, z: Byte, a: Str, b: Str, c: Str)
    requires start != [] && x != y && x != z && y != z
    ensures var d := Run(Empty(name, true), [PutOp(start + [x], a, false)]);
      var m := Run(Empty(name, false), [PutOp(start + [y], b, false)]);
      var merged := Merged(d.entries, m.entries); var after := Put(name, merged, start + [z], c, false);
      && RefsOf(Scan(merged, start + [x])) == Some([a]) && RefsOf(Scan(merged, start + [y])) == Some([b])
      && RefsOf(Scan(after, start + [x])) == Some([a]) && Scan(after, start + [y]) == None
      && RefsOf(Scan(after, start + [z])) == Some([c])
  {
    hide Run, Step, Merged, Scan, Put, KeptFirst, TakenOver;
    FirstPut(name, true, start + [x], a, false);
    FirstPut(name, false, start + [y], b, false);
    RunOfOne(Empty(name, true), PutOp(start + [x], a, false));
    RunOfOne(Empty(name, false), PutOp(start + [y], b, false));
    StepOfPut(Empty(name, true), start + [x], a);
    StepOfPut(Empty(name, false), start + [y], b);
    var e, f := LeafOf(start + [x], [a]), LeafOf(start + [y], [b]);
    assert (start + [x])[|start|] != (start + [y])[|start|];
    MergeKeepsBoth(name, start + [x], start + [y], a, b);
    BesideMerged(e, f);
    LeavesAreMixed(name, e, f);
    PutOnMixed(name, [e, f], start + [z], c, false, start + [x]);
    PutOnMixed(name, [e, f], start + [z], c, false, start + [y]);
    PutOnMixed(name, [e, f], start + [z], c, false, start + [z]);
    FirstTakesOver(e, f, start, x, y, z);
    assert [] + [c] == [c];
  }

  lemma BesideMerged(e: Entry, f: Entry)
    requires Head(e.name) == Head(f.name) && f.name != [] && e.name != f.name
    ensures Merged([e], [f]) == [e, f]
  {
    hide InsertPosition;
    InsertPositionIsUnique([e], f.name, 1);
    assert [f][..0] == [];
    assert Merged([e], [f]) == AddSorted([e], f) == InsertAt([e], 1, f);
  }

  lemma LeavesAreMixed(base: Str, e: Entry, f: Entry)
    requires e.etype.LeafEntry? && f.etype.LeafEntry? && e.manifest.None? && f.manifest.None? && Head(e.name) == Head(f.name)
    ensures MixedEntries(base, [e, f])
  {
  }

  lemma FirstTakesOver(e: Entry, f: Entry, start: Str, x: Byte, y: Byte, z: Byte)
    requires start != [] && x != y && x != z && y != z && e.etype.LeafEntry? && e.name == start + [x]
    ensures !TakenOver([e, f], start + [z], start + [x]) && TakenOver([e, f], start + [z], start + [y])
    ensures KeptFirst([e, f], start + [z], false) == []
  {
    SlotIsUnique([e, f], start + [z], 0);
    CommonLengthIsUnique(start + [x], start + [z], |start|) by {
      assert (start + [x])[..|start|] == start == (start + [z])[..|start|];
    }
    assert (start + [z])[..|start|] == start;
    assert (start + [x])[|start|] == x && (start + [z])[|start|] == z && (start + [y])[|start|] == y;
  }

  lemma LeafIsValid(base: Str, e: Entry)
    requires e.etype.LeafEntry? && e.manifest.None?
    ensures ValidEntries(base, [e]) && MixedEntries(base, [e])
  {
    assert ValidEntry(base, e);
  }

  /** A branch on disk and a branch of the batch of one name: the write stores the node of the batch
      over the one on disk, and both keys on disk are gone. The store is what `Write` leaves. */
  lemma MergeLosesBranch(s: Blobs, disk: Manifest, name: Str, start: Str, x: Byte, y: Byte, z: Byte, w: Byte,
                         a: Str, b: Str, c: Str, e: Str)
    requires start != [] && x < y && z < w && x != z && x != w && y != z && y != w
    requires var d := Run(Empty(name, true), [PutOp(start + [x], a, false), PutOp(start + [y], b, false)]);
      var m := Run(Empty(name, false), [PutOp(start + [z], c, false), PutOp(start + [w], e, false)]);
      && disk.name == name && disk.entries == StripAll(d.entries) && name in s && s[name] == MergedRoot(disk, m)
      && forall k :: 0 <= k < |Children(m.entries)| ==> Saved(s, Children(m.entries)[k])
    ensures var d := Run(Empty(name, true), [PutOp(start + [x], a, false), PutOp(start + [y], b, false)]);
      Lookup(d.entries, start + [x]) == Some([a]) && Lookup(d.entries, start + [y]) == Some([b])
    ensures Answer(s, s[name], start + [x]) == None && Answer(s, s[name], start + [y]) == None
    ensures Answer(s, s[name], start + [z]) == Some([c]) && Answer(s, s[name], start + [w]) == Some([e])
  {
    hide Pair, Run, Step, Merged, Lookup, Locate, StripAll, Saved;
    TwoKeys(name, true, start, [x], [y], a, b);
    TwoKeys(name, false, start, [z], [w], c, e);
    PairInOrder(name + start, LeafOf([y], [b]), LeafOf([x], [a]));
    PairInOrder(name + start, LeafOf([w], [e]), LeafOf([z], [c]));
    var d, kid := Node(name + start, x, y, a, b), Node(name + start, z, w, c, e);
    var f, g := BranchTo(start, [a], d), BranchTo(start, [c], kid);
    TwoAnswers(name, f, start, x, y, a, b);
    OneChild(g);
    assert Run(Empty(name, false), [PutOp(start + [z], c, false), PutOp(start + [w], e, false)]).entries == [g];
    assert Saved(s, Children([g])[0]);
    StoredKid(s, kid);
    MergedFront(disk, name, f, g);
    var root := s[name];
    LocateInKid(s, root, start, kid, [x]);
    LocateInKid(s, root, start, kid, [y]);
    LocateInKid(s, root, start, kid, [z]);
    LocateInKid(s, root, start, kid, [w]);
    KidAnswers(s, kid, z, w, c, e, x);
    KidAnswers(s, kid, z, w, c, e, y);
    KidAnswers(s, kid, z, w, c, e, z);
    KidAnswers(s, kid, z, w, c, e, w);
  }

  function Node(name: Str, x: Byte, y: Byte, a: Str, b: Str): Manifest {
    Manifest(name, false, [LeafOf([x], [a]), LeafOf([y], [b])])
  }

  lemma TwoAnswers(base: Str, f: Entry, start: Str, x: Byte, y: Byte, a: Str, b: Str)
    requires start != [] && x < y && f == BranchTo(start, [a], Node(base + start, x, y, a, b))
    ensures Lookup([f], start + [x]) == Some([a]) && Lookup([f], start + [y]) == Some([b])
  {
    OneBranch([f], start, [x]);
    OneBranch([f], start, [y]);
    var below := f.manifest.value.entries;
    SlotIsUnique(below, [x], 0);
    SlotIsUnique(below, [y], 1);
  }

  lemma OneChild(g: Entry)
    requires g.manifest.Some?
    ensures Children([g]) == [g.manifest.value]
  {
    assert [g][..0] == [];
    assert Children([g]) == Children([]) + [g.manifest.value];
  }

  lemma StoredKid(s: Blobs, kid: Manifest)
    requires Saved(s, kid) && forall i :: 0 <= i < |kid.entries| ==> kid.entries[i].manifest.None?
    ensures kid.name in s && s[kid.name] == kid
  {
    LeavesAreLow(kid.entries);
  }

  lemma {:induction false} LeavesAreLow(es: seq<Entry>)
    requires forall i :: 0 <= i < |es| ==> es[i].manifest.None?
    ensures Height(es) == 0
  {
    if es != [] {
      LeavesAreLow(es[1..]);
    }
  }

  /** The merged root has the branch on disk first, by name. */
  lemma MergedFront(disk: Manifest, name: Str, f: Entry, g: Entry)
    requires disk.name == name && disk.entries == StripAll([f]) && f.name == g.name && f.name != []
    requires f.etype.IntermediateEntry? && g.etype.IntermediateEntry?
    ensures var root := MergedRoot(disk, Manifest(name, false, [g]));
      root.name == name && root.entries != [] && root.entries[0] == Strip(f)
  {
    hide Duplicate;
    var es := disk.entries;
    assert es == [Strip(f)];
    assert [g][..0] == [];
    assert Merged(es, [g]) == AddSorted(es, g);
    if !Duplicate(es, g) {
      InsertPositionIsUnique(es, g.name, 1);
      assert AddSorted(es, g) == InsertAt(es, 1, g);
    }
    assert AddSorted(es, g)[0] == Strip(f);
  }

  lemma LocateInKid(s: Blobs, root: Manifest, start: Str, kid: Manifest, rest: Str)
    requires root.entries != [] && root.entries[0].etype.IntermediateEntry? && root.entries[0].name == start != []
    requires root.entries[0].manifest.None? && kid.name == root.name + start && kid.name in s && s[kid.name] == kid
    ensures Locate(s, root, start + rest) == Locate(s, kid, rest)
  {
    ScanSlotIsUnique(root.entries, start + rest, 0);
    assert (start + rest)[|start|..] == rest;
  }

  lemma KidAnswers(s: Blobs, kid: Manifest, z: Byte, w: Byte, c: Str, e: Str, x: Byte)
    requires z < w && kid.entries == [LeafOf([z], [c]), LeafOf([w], [e])]
    ensures Locate(s, kid, [x]) == if x == z then Some((kid, 0)) else if x == w then Some((kid, 1)) else None
  {
    ScanSlotIsUnique(kid.entries, [x], if x <= z then 0 else if x <= w then 1 else 2);
  }

  lemma StepOfPut(t: Manifest, key: Str, value: Str)
    ensures Step(t, PutOp(key, value, false)) == PutTree(t, key, value, false)
  {
  }

  lemma AddedBehind(e: Entry, f: Entry)
    requires e.name == f.name != [] && e.ref != f.ref
    ensures Merged([e], [f]) == [e] + [f] == [e, f]
  {
    hide Duplicate, InsertPosition;
    assert !Duplicate([e], f) by { NotAgain(e, f); }
    InsertPositionIsUnique([e], f.name, 1);
    assert [f][..0] == [];
    assert Merged([e], [f]) == AddSorted([e], f) == InsertAt([e], 1, f);
  }

  lemma NotAgain(e: Entry, f: Entry)
    requires e.ref != f.ref
    ensures !Duplicate([e], f)
  {
  }

  // ----- Putting on disk after a flush -----

  lemma RunOfThreeOps(t: Manifest, p: Op, q: Op, r: Op)
    ensures Run(t, [p, q, r]) == Step(Run(t, [p, q]), r)
  {
    hide Step;
    assert [p, q, r][1..] == [q, r] && [q, r][1..] == [r] && [r][1..] == [];
    assert [p, q][1..] == [q] && [q][1..] == [];
    var t1 := Step(t, p);
    var t2 := Step(t1, q);
    assert Run(t, [p, q]) == Run(t1, [q]) == Run(t2, []) == t2;
    assert Run(t, [p, q, r]) == Run(t1, [q, r]) == Run(t2, [r]) == Run(Step(t2, r), []);
  }

  /** A branch with a sub-branch: three keys, of which two share more than their start. */
  function Tall(name: Str, start: Str, mid: Str, one: Byte, two: Byte, z: Byte, a: Str, b: Str, c: Str): Manifest {
    Run(Empty(name, false), [PutOp((start + mid) + [one], a, false), PutOp((start + mid) + [two], b, false),
                      PutOp(start + [z], c, false)])
  }

  /** The sub-branch's node, and the branch's. */
  function Lower(name: Str, start: Str, mid: Str, one: Byte, two: Byte, a: Str, b: Str): Manifest {
    Node(name + (start + mid), one, two, a, b)
  }

  function Upper(name: Str, start: Str, mid: Str, z: Byte, c: Str, lower: Manifest): Manifest {
    var leaf, branch := LeafOf([z], [c]), Entry(mid, IntermediateEntry, [], Some(lower));
    Manifest(name + start, false, if mid != [] && z < mid[0] then [leaf, branch] else [branch, leaf])
  }

  lemma TallTree(name: Str, start: Str, mid: Str, one: Byte, two: Byte, z: Byte, a: Str, b: Str, c: Str)
    requires start != [] && mid != [] && mid[0] != z && one < two
    ensures var t := Tall(name, start, mid, one, two, z, a, b, c);
      && ValidTree(t)
      && t == Empty(name, false).(entries :=
           [BranchTo(start, [a], Upper(name, start, mid, z, c, Lower(name, start, mid, one, two, a, b)))])
  {
    hide Pair, Run, Split;
    var p, q, r := PutOp((start + mid) + [one], a, false), PutOp((start + mid) + [two], b, false), PutOp(start + [z], c, false);
    TwoKeys(name, false, start + mid, [one], [two], a, b);
    PairInOrder(name + (start + mid), LeafOf([two], [b]), LeafOf([one], [a]));
    var t := Run(Empty(name, false), [p, q]);
    var f := t.entries[0];
    RunOfThreeOps(Empty(name, false), p, q, r);
    SlotIsUnique(t.entries, start + [z], 0);
    SplitPut(t, 0, start, mid, [z], c, false);
    SplitShape(name, f, start, mid, [z], c);
    PairInOrder(name + start, LeafOf([z], [c]), Rest(f, mid));
    LastPutWins(Empty(name, false), [p, q, r]);
  }

  /** After the write of a batch with these keys to an index without entries. */
  lemma TallIsFlushed(s: Blobs, name: Str, start: Str, mid: Str, one: Byte, two: Byte, z: Byte, a: Str, b: Str, c: Str)
    requires start != [] && mid != [] && mid[0] != z && one < two
    requires FreshlyWritten(s, Tall(name, start, mid, one, two, z, a, b, c))
    ensures name in s && !s[name].mutable && Flushed(s, s[name], Tall(name, start, mid, one, two, z, a, b, c), 0)
  {
    hide Run, Merged;
    TallTree(name, start, mid, one, two, z, a, b, c);
    var low := Lower(name, start, mid, one, two, a, b);
    var d := Upper(name, start, mid, z, c, low);
    LeavesAreLow(low.entries);
    UpperIsLow(d, name, start, mid, z, c, low);
    FreshIsFlushed(s, Tall(name, start, mid, one, two, z, a, b, c), 0);
  }

  lemma UpperIsLow(d: Manifest, name: Str, start: Str, mid: Str, z: Byte, c: Str, low: Manifest)
    requires d == Upper(name, start, mid, z, c, low) && Height(low.entries) == 0
    ensures Shallow(d)
  {
    assert d.entries[1..][1..] == [];
    assert Height(d.entries[1..]) <= 1;
  }

  /** Where the put of `mid + rest` goes in the branch's node. */
  lemma UpperSlot(d: Manifest, name: Str, start: Str, mid: Str, z: Byte, c: Str, lower: Manifest, rest: Str) returns (j: nat)
    requires mid != [] && mid[0] != z && d == Upper(name, start, mid, z, c, lower) && rest != [] && rest[0] == mid[0]
    ensures j < 2 && d.entries[j] == Entry(mid, IntermediateEntry, [], Some(lower)) && Slot(d.entries, rest) == j
    ensures mid <= rest ==> ScanSlot(d.entries, rest) == j
  {
    j := if z < mid[0] then 1 else 0;
    SlotIsUnique(d.entries, rest, j);
    if mid <= rest {
      ScanSlotIsUnique(d.entries, rest, j);
    }
  }

  /** A put below the sub-branch succeeds, but is stored under the sub-branch's own name, where no
      lookup reads: the key is not found. */
  lemma PutAfterFlushIsHidden(s: Blobs, name: Str, start: Str, mid: Str, one: Byte, two: Byte, z: Byte, q: Byte,
                              a: Str, b: Str, c: Str, v: Str)
    requires start != [] && mid != [] && mid[0] != z && one < two && q != one && q != two
    requires FreshlyWritten(s, Tall(name, start, mid, one, two, z, a, b, c))
    ensures name in s
    ensures var ws := Writes(s, s[name], start + (mid + [q]), v, false);
      && ws.Some? && |ws.value| == 1 && ws.value[0].name == name + (start + mid)
      && Answer(StoreAll(s, ws.value), s[name], start + (mid + [q])) == None
  {
    hide Run, PutAt, AddSorted, Answer, Rep, SameAnswer;
    TallTree(name, start, mid, one, two, z, a, b, c);
    var t, m := Tall(name, start, mid, one, two, z, a, b, c), s[name];
    TallIsFlushed(s, name, start, mid, one, two, z, a, b, c);
    var low := Lower(name, start, mid, one, two, a, b);
    var d, rest, put := Upper(name, start, mid, z, c, low), mid + [q], start + (mid + [q]);
    Into(t, start, rest);
    var j := UpperSlot(d, name, start, mid, z, c, low, rest);
    DescendsHere(d, rest, j, v);
    WritesInto(s, m, t, 0, put, v, false);
    assert d.name + mid == low.name;
    assert Whole(s, low) by { assert Whole(s, d); }
    NewLeafHere(s, low, [q], v);
    PutBelowIsHidden(s, t, 0, put, v, false, put);
    var s' := StoreAll(s, Writes(s, m, put, v, false).value);
    LocateIsFind(s', m, t, put);
    OneBranch(t.entries, start, rest);
    SlotIsUnique(low.entries, [q], 2);
    assert Find(d.entries, rest) == EntryFind(d.entries[j], rest) == Find(low.entries, [q]) == None;
  }

  lemma Into(t: Manifest, start: Str, rest: Str)
    requires |t.entries| == 1 && t.entries[0].etype.IntermediateEntry? && t.entries[0].name == start != []
    ensures GoesInto(t, 0, start + rest) && (start + rest)[|start|..] == rest
  {
    SlotIsUnique(t.entries, start + rest, 0);
  }

  lemma DescendsHere(d: Manifest, key: Str, j: nat, v: Str)
    requires j < |d.entries| && Slot(d.entries, key) == j && d.entries[j].etype.IntermediateEntry?
    requires d.entries[j].name != [] && d.entries[j].name <= key
    ensures PutAt(d, key, v, false, false) == Descends(j, key[|d.entries[j].name|..])
  {
    CommonLengthIsUnique(d.entries[j].name, key, |d.entries[j].name|);
  }

  lemma NewLeafHere(s: Blobs, d: Manifest, key: Str, v: Str)
    requires forall j :: 0 <= j < |d.entries| ==> Head(d.entries[j].name) != Head(key)
    ensures PutAt(d, key, v, false, false) == Rewrites(None, d.(entries := AddSorted(d.entries, LeafOf(key, [v]))))
    ensures Writes(s, d, key, v, false) == Some([d.(entries := AddSorted(d.entries, LeafOf(key, [v])))])
  {
    SlotIsUnique(d.entries, key, |d.entries|);
  }

  /** A put into the branch's own node is stored under the branch's name, where lookups read. */
  lemma PutAfterFlushIsSeen(s: Blobs, name: Str, start: Str, mid: Str, one: Byte, two: Byte, z: Byte, q: Byte,
                            a: Str, b: Str, c: Str, v: Str)
    requires start != [] && mid != [] && mid[0] != z && one < two && q != mid[0] && q != z
    requires FreshlyWritten(s, Tall(name, start, mid, one, two, z, a, b, c))
    ensures name in s
    ensures var ws := Writes(s, s[name], start + [q], v, false);
      && ws.Some? && |ws.value| == 1 && ws.value[0].name == name + start
      && Answer(StoreAll(s, ws.value), s[name], start + [q]) == Some([v])
  {
    hide Run, PutAt, AddSorted, Answer, Rep, Kept;
    TallTree(name, start, mid, one, two, z, a, b, c);
    var t, m := Tall(name, start, mid, one, two, z, a, b, c), s[name];
    TallIsFlushed(s, name, start, mid, one, two, z, a, b, c);
    var d := Upper(name, start, mid, z, c, Lower(name, start, mid, one, two, a, b));
    Into(t, start, [q]);
    WritesInto(s, m, t, 0, start + [q], v, false);
    NewLeafHere(s, d, [q], v);
    PutAtBranchIsSeen(s, t, 0, start + [q], v, false);
    PutIsUpdate(name, t.entries, start + [q], v, false, start + [q]);
    LocateIsFind(StoreAll(s, Writes(s, m, start + [q], v, false).value), m, PutTree(t, start + [q], v, false), start + [q]);
    NothingKept(t, start + [q], v);
  }

  lemma NothingKept(t: Manifest, key: Str, v: Str)
    ensures Kept(t.entries, key, false) + [v] == [v]
  {
  }

  /** A put that splits the sub-branch loses the keys below it: the entry gets the shorter name but
      keeps the embedded node. */
  lemma SplitAfterFlushLosesKeys(s: Blobs, name: Str, start: Str, mid: Str, one: Byte, two: Byte, z: Byte, q: Byte,
                                 a: Str, b: Str, c: Str, v: Str)
    requires start != [] && |mid| > 1 && mid[0] != z && one < two && q != mid[1]
    requires FreshlyWritten(s, Tall(name, start, mid, one, two, z, a, b, c))
    ensures Lookup(Tall(name, start, mid, one, two, z, a, b, c).entries, start + (mid + [one])) == Some([a])
    ensures name in s
    ensures var ws := Writes(s, s[name], start + ([mid[0]] + [q]), v, false);
      && ws.Some? && |ws.value| == 2 && ws.value[1].name == name + start
      && Answer(StoreAll(s, ws.value), s[name], start + (mid + [one])) == None
      && Answer(StoreAll(s, ws.value), s[name], start + (mid + [two])) == None
  {
    hide Run, AddSorted, Rep, Pair, Locate, Find, PutAt;
    TallTree(name, start, mid, one, two, z, a, b, c);
    var t, m := Tall(name, start, mid, one, two, z, a, b, c), s[name];
    TallIsFlushed(s, name, start, mid, one, two, z, a, b, c);
    var low := Lower(name, start, mid, one, two, a, b);
    var d, rest := Upper(name, start, mid, z, c, low), [mid[0]] + [q];
    TallFinds(t, d, name, start, mid, one, two, z, a, b, c);
    Into(t, start, rest);
    WritesInto(s, m, t, 0, start + rest, v, false);
    var j := UpperSlot(d, name, start, mid, z, c, low, rest);
    SplitsHere(d, rest, j, v);
    var p := PutAt(d, rest, v, false, false);
    WritesHere(s, d, rest, v, false);
    SplitChildName(d, rest, v, false);
    var s' := StoreAll(s, Writes(s, m, start + rest, v, false).value);
    assert s'[d.name] == p.node;
    RootByName(s, m, t);
    LostBelow(s', m, p.node, j, start, mid, z, c, low, one);
    LostBelow(s', m, p.node, j, start, mid, z, c, low, two);
  }

  lemma RootByName(s: Blobs, m: Manifest, t: Manifest)
    requires Flushed(s, m, t, 0)
    ensures m.name == t.name && |m.entries| == |t.entries| && m.entries[0].name == t.entries[0].name
    ensures m.entries[0].etype == t.entries[0].etype && m.entries[0].manifest.None?
  {
    assert RepEntry(false, s, t.name, m.entries[0], t.entries[0]);
  }

  lemma TallFinds(t: Manifest, d: Manifest, name: Str, start: Str, mid: Str, one: Byte, two: Byte, z: Byte,
                  a: Str, b: Str, c: Str)
    requires start != [] && mid != [] && mid[0] != z && one < two
    requires d == Upper(name, start, mid, z, c, Lower(name, start, mid, one, two, a, b))
    requires t.entries == [BranchTo(start, [a], d)]
    ensures Lookup(t.entries, start + (mid + [one])) == Some([a])
  {
    var low := Lower(name, start, mid, one, two, a, b);
    OneBranch(t.entries, start, mid + [one]);
    var j := UpperSlot(d, name, start, mid, z, c, low, mid + [one]);
    SlotIsUnique(low.entries, [one], 0);
    assert (mid + [one])[|mid|..] == [one];
    assert Find(d.entries, mid + [one]) == EntryFind(d.entries[j], mid + [one]) == Find(low.entries, [one]);
  }

  lemma SplitsHere(d: Manifest, key: Str, j: nat, v: Str)
    requires j < |d.entries| && Slot(d.entries, key) == j && d.entries[j].etype.IntermediateEntry? && |key| == 2
    requires |d.entries[j].name| > 1 && d.entries[j].name[0] == key[0] && d.entries[j].name[1] != key[1]
    ensures var p := PutAt(d, key, v, false, false); var e := d.entries[j];
      && p.Rewrites? && p.child.Some? && p.node.name == d.name
      && p.node.entries == d.entries[j := Entry(key[..1], IntermediateEntry, e.ref, e.manifest)]
  {
    hide Pair, AddSorted, Slot;
    CommonLengthIsUnique(d.entries[j].name, key, 1);
  }

  /** Below the shorter name, the embedded node is searched with a longer rest of the key. */
  lemma LostBelow(s: Blobs, m: Manifest, node: Manifest, j: nat, start: Str, mid: Str, z: Byte, c: Str, low: Manifest, x: Byte)
    requires |mid| > 1 && mid[0] != z && start != [] && j == (if z < mid[0] then 1 else 0)
    requires |m.entries| == 1 && m.entries[0].name == start && m.entries[0].etype.IntermediateEntry? && m.entries[0].manifest.None?
    requires node.name == m.name + start && node.name in s && s[node.name] == node
    requires |node.entries| == 2 && node.entries[1 - j] == LeafOf([z], [c])
    requires node.entries[j] == Entry([mid[0]], IntermediateEntry, [], Some(low))
    requires forall i :: 0 <= i < |low.entries| ==> low.entries[i].etype.LeafEntry? && |low.entries[i].name| == 1
    ensures Answer(s, m, start + (mid + [x])) == None
  {
    LocateInKid(s, m, start, node, mid + [x]);
    ScanSlotIsUnique(node.entries, mid + [x], j);
    var rest := (mid + [x])[1..];
    var k := ScanSlot(low.entries, rest);
    assert Locate(s, low, rest) == None;
    assert Locate(s, node, mid + [x]) == Locate(s, low, rest);
  }

  // ----- Deleting -----

  /** With `start` and an extension of it stored, deleting the extension leaves a node that
      holds only the empty name; from then on `start` is stored and cannot be deleted. */
  lemma DeleteIsRefused(name: Str, start: Str, x: Str, a: Str, b: Str)
    requires start != [] && x != []
    ensures var t := Run(Empty(name, true), [PutOp(start, a, false), PutOp(start + x, b, false)]);
      var u := Step(t, DeleteOp(start + x));
      && Accepts(t, DeleteOp(start + x)) && Find(u.entries, start).Some? && !Accepts(u, DeleteOp(start))
  {
    hide Pair, Find, SoleEmpty, RemoveTree;
    TwoKeys(name, true, start, [], x, a, b);
    assert start + [] == start;
    var t := Run(Empty(name, true), [PutOp(start, a, false), PutOp(start + x, b, false)]);
    PairInOrder(name + start, LeafOf(x, [b]), LeafOf([], [a]));
    OneLeft(t, start, x, LeafOf([], [a]), LeafOf(x, [b]));
  }

  lemma OneLeft(t: Manifest, start: Str, x: Str, older: Entry, newer: Entry)
    requires start != [] && x != [] && older.etype.LeafEntry? && newer.etype.LeafEntry? && older.name == [] && newer.name == x
    requires |t.entries| == 1 && t.entries[0].etype.IntermediateEntry? && t.entries[0].name == start
    requires t.entries[0].manifest.Some? && t.entries[0].manifest.value.entries == [older, newer]
    ensures var u := RemoveTree(t, start + x);
      && Find(t.entries, start + x).Some? && !SoleEmpty(t.entries, start + x)
      && Find(u.entries, start).Some? && SoleEmpty(u.entries, start)
  {
    var branch := t.entries[0];
    OneBranch(t.entries, start, x);
    SlotIsUnique([older, newer], x, 1);
    assert Remove.Remove([older, newer], x) == [older];
    var u := RemoveTree(t, start + x);
    assert u.entries == [branch.(manifest := Some(branch.manifest.value.(entries := [older])))];
    OneBranch(u.entries, start, []);
    assert start + [] == start;
    SlotIsUnique([older], [], 0);
  }

  /** A node with a single branch hands everything to the node below. */
  lemma OneBranch(es: seq<Entry>, start: Str, x: Str)
    requires |es| == 1 && es[0].etype.IntermediateEntry? && es[0].name == start != [] && es[0].manifest.Some?
    ensures Slot(es, start + x) == 0 && (start + x)[|start|..] == x
    ensures Find(es, start + x) == Find(es[0].manifest.value.entries, x)
    ensures SoleEmpty(es, start + x) == SoleEmpty(es[0].manifest.value.entries, x)
  {
    SlotIsUnique(es, start + x, 0);
    assert Find(es, start + x) == EntryFind(es[0], start + x);
  }

  // ----- Seeking -----

  /** A branch that is greater than the key is passed over if its name is not shorter than the key,
      and is else sought with a rest of the key that has nothing to do with it, though all that is
      below it is greater than the key. */
  lemma GreaterBranch(base: Str, e: Entry, key: Str)
    requires ValidEntry(base, e) && e.etype.IntermediateEntry? && key != [] && Head(key) == Head(e.name)
    requires Less(key, e.name) && !(e.name <= key)
    ensures SeekLeaves([e], key) ==
            if |e.name| < |key| then Under(e.name, SeekLeaves(e.manifest.value.entries, key[|e.name|..])) else []
    ensures NotSmaller(Leaves([e]), key) == Leaves([e]) == EntryLeaves(e)
  {
    hide NotSmaller, SeekLeaves, Less, Leaves, EntryLeaves, ValidEntry, KeptOf, Slot, LargerFrom;
    assert ValidEntries(base, [e]);
    assert ValidEntry(base, [e][0]);
    KeptOfGreater(e, key) by { LeafOrChild(base, e); }
    SlotIsUnique([e], key, 0);
    LeafOrChild(base, e);
    SeekByNames(base, [e], key);
    NotSmallerByNames(base, [e], key);
    BranchNotSmaller(base, e, key);
    BranchLeaves(base, e);
    assert [e][1..] == [];
    NoEntries(key);
    LeavesSteps([e]);
    assert EntryLeaves(e) + [] == EntryLeaves(e);
    var kept := KeptOf(e, key);
    assert kept + [] == kept;
  }

  lemma KeptOfGreater(e: Entry, key: Str)
    requires e.etype.IntermediateEntry? && e.manifest.Some? && Less(key, e.name) && !(e.name <= key)
    ensures KeptOf(e, key) ==
            if |e.name| < |key| then Under(e.name, SeekLeaves(e.manifest.value.entries, key[|e.name|..])) else []
  {
  }

  lemma BranchLeaves(base: Str, e: Entry)
    requires ValidEntry(base, e) && e.etype.IntermediateEntry?
    ensures e.manifest.Some? && EntryLeaves(e) == Under(e.name, Leaves(e.manifest.value.entries))
  {
  }

  /** With two keys `start + [hi, one]` and `start + [hi, two]` stored, seeking `start + [lo, past]`
      finds nothing, though both keys are greater: the branch `start + [hi]` is sought with `past`. */
  lemma SeekGoesAstray(name: Str, start: Str, hi: Byte, lo: Byte, one: Byte, two: Byte, past: Byte, a: Str, b: Str)
    requires start != [] && lo < hi && one < two < past
    ensures var t := Run(Empty(name, true), [PutOp(start + [hi] + [one], a, false), PutOp(start + [hi] + [two], b, false)]);
      && ValidTree(t) && SeekLeaves(t.entries, start + [lo] + [past]) == [] && !SeekIsExact(t.entries, start + [lo] + [past])
      && NotSmaller(Leaves(t.entries), start + [lo] + [past]) == Leaves(t.entries) && |Leaves(t.entries)| == 2
  {
    hide Pair, SeekLeaves, NotSmaller, SeekIsExact, Run, Step, Leaves, Less;
    var k, key := start + [hi], start + [lo] + [past];
    TwoKeys(name, true, k, [one], [two], a, b);
    LastPutWins(Empty(name, true), [PutOp(k + [one], a, false), PutOp(k + [two], b, false)]);
    PairInOrder(name + k, LeafOf([two], [b]), LeafOf([one], [a]));
    var d := Node(name + k, one, two, a, b);
    var e := BranchTo(k, [a], d);
    assert ValidTree(Empty(name, true).(entries := [e]));
    assert ValidEntry(name, [e][0]);
    LeavesOfTwo(d.entries[0], d.entries[1]);
    assert |EntryLeaves(e)| == 2;
    LowerKey(start, hi, lo, past);
    GreaterBranch(name, e, key);
    assert key[|k|..] == [past];
    SeekPast(name + k, d.entries, one, two, past, a, b);
    SeekExactly(name, [e], key);
  }

  lemma LowerKey(start: Str, hi: Byte, lo: Byte, past: Byte)
    requires start != [] && lo < hi
    ensures var k, key := start + [hi], start + [lo] + [past];
      Less(key, k) && !(k <= key) && Head(key) == Head(k) && |k| < |key|
  {
    var k, key := start + [hi], start + [lo] + [past];
    assert key == start + [lo, past];
    LessUnderPrefix(start, [lo, past], [hi]);
    assert k[|start|] != key[|start|];
  }

  lemma SeekPast(base: Str, es: seq<Entry>, one: Byte, two: Byte, past: Byte, a: Str, b: Str)
    requires one < two < past && es == [LeafOf([one], [a]), LeafOf([two], [b])]
    ensures SeekLeaves(es, [past]) == []
  {
    assert ValidEntry(base, es[0]) && ValidEntry(base, es[1]);
    SlotIsUnique(es, [past], 2);
    SeekByNames(base, es, [past]);
    assert es[LargerFrom(es, [past])..] == [];
  }

  /** A branch whose name is longer than the key and starts with it is passed over, though all
      that is below it is greater than the key. */
  lemma PassedOver(base: Str, e: Entry, key: Str)
    requires ValidEntry(base, e) && e.etype.IntermediateEntry? && key != [] && key < e.name
    ensures SeekLeaves([e], key) == [] && NotSmaller(Leaves([e]), key) == Leaves([e]) == EntryLeaves(e)
  {
    hide NotSmaller, EntryLeaves, SeekIsExact, Less;
    PrefixIsAtMost(key, e.name);
    assert Less(key, e.name) by { assert AtMost(key, e.name); }
    GreaterBranch(base, e, key);
  }

  /** With `start + [c, one]` and `start + [c, two]` stored, seeking `start` finds nothing, though
      both keys are greater. */
  lemma SeekSkipsGreaterBranch(name: Str, start: Str, c: Byte, one: Byte, two: Byte, a: Str, b: Str)
    requires start != [] && one < two
    ensures var t := Run(Empty(name, true), [PutOp(start + [c] + [one], a, false), PutOp(start + [c] + [two], b, false)]);
      && ValidTree(t) && SeekLeaves(t.entries, start) == [] && !SeekIsExact(t.entries, start)
      && NotSmaller(Leaves(t.entries), start) == Leaves(t.entries) && |Leaves(t.entries)| == 2
  {
    hide Pair, SeekLeaves, NotSmaller, SeekIsExact, Run, Step, Leaves;
    var k, x, y := start + [c], [one], [two];
    TwoKeys(name, true, k, x, y, a, b);
    LastPutWins(Empty(name, true), [PutOp(k + x, a, false), PutOp(k + y, b, false)]);
    PairInOrder(name + k, LeafOf(y, [b]), LeafOf(x, [a]));
    var d := Pair(name + k, LeafOf(y, [b]), LeafOf(x, [a]));
    var e := BranchTo(k, [a], d);
    assert ValidTree(Empty(name, true).(entries := [e]));
    assert ValidEntry(name, [e][0]);
    LeavesOfTwo(d.entries[0], d.entries[1]);
    assert |EntryLeaves(e)| == 2;
    PassedOver(name, e, start);
    SeekExactly(name, [e], start);
  }

  // ----- Index names -----

  /** Names are joined without a separator: two puts into an index replace whatever is stored
      under the name of an index whose name is longer. */
  lemma NestedIndexesCollide(s: Blobs, name: Str, tail: Str, x: Byte, y: Byte, a: Str, b: Str)
    requires tail != [] && x < y && name in s
    requires Rep(true, s, s[name], Run(Empty(name, true), [PutOp(tail + [x], a, false), PutOp(tail + [y], b, false)]))
    ensures name + tail in s
    ensures s[name + tail] == Manifest(name + tail, false, [LeafOf([x], [a]), LeafOf([y], [b])])
  {
    hide Pair;
    TwoKeys(name, true, tail, [x], [y], a, b);
    PairInOrder(name + tail, LeafOf([y], [b]), LeafOf([x], [a]));
    var t := Run(Empty(name, true), [PutOp(tail + [x], a, false), PutOp(tail + [y], b, false)]);
    var d := t.entries[0].manifest.value;
    assert d == Manifest(name + tail, false, [LeafOf([x], [a]), LeafOf([y], [b])]);
    assert RepEntry(true, s, name, s[name].entries[0], t.entries[0]);
    var c := s[name + tail];
    forall i | 0 <= i < 2 ensures c.entries[i] == d.entries[i] {
      assert RepEntry(true, s, d.name, c.entries[i], d.entries[i]);
    }
    assert c.entries == d.entries;
  }
}
