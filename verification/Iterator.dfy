/** The iterator: it seeks and steps through the tree with an explicit stack. */
module Iterator {
  import opened Bytes
  import opened Tree
  import opened Storage
  import opened Numbers
  import opened Index
  import opened Iteration
  import opened Seeking

  /** A manifest on the stack, with the position of its next entry. */
  datatype ManifestState = ManifestState(currentManifest: Manifest, currentIndex: nat)

  /** `strings.TrimPrefix`. */
  function TrimPrefix(s: Str, prefix: Str): Str {
    if prefix <= s then s[|prefix|..] else s
  }

  function Span(lo: nat, hi: nat): (r: set<nat>)
    ensures forall p :: p in r <==> lo <= p < hi
    decreases hi - lo
  {
    if lo < hi then {lo} + Span(lo + 1, hi) else {}
  }

  /** Each pair given is the one at its position, below the end; positions ascend; and what lies
      below the end was given or lost, up to `pos`. */
  ghost predicate PlacedIn(all: seq<Item>, end: Str, pos: nat, given: seq<Item>, at: seq<nat>, lost: set<nat>) {
    && pos <= |all| && |at| == |given|
    && (forall k :: 0 <= k < |at| ==> at[k] < pos && given[k] == all[at[k]] && IsBelowEnd(all[at[k]], end))
    && (forall j, k :: 0 <= j < k < |at| ==> at[j] < at[k])
    && (forall p :: 0 <= p < pos && IsBelowEnd(all[p], end) ==> p in at || p in lost)
  }

  /** All that is lost lies below the branches that were not read. */
  ghost predicate LostBelow(all: seq<Item>, lost: set<nat>, unread: seq<Str>) {
    forall p :: p in lost ==> p < |all| && exists i :: 0 <= i < |unread| && unread[i] <= all[p].key
  }

  lemma LoseBranch(all: seq<Item>, lost: set<nat>, unread: seq<Str>, pos: nat, k: nat, path: Str)
    requires LostBelow(all, lost, unread) && pos + k <= |all|
    requires forall j :: pos <= j < pos + k ==> path <= all[j].key
    ensures LostBelow(all, lost + Span(pos, pos + k), unread + [path])
  {
    var now := unread + [path];
    forall p | p in lost + Span(pos, pos + k) ensures p < |all| && exists i :: 0 <= i < |now| && now[i] <= all[p].key {
      if p in lost {
        var i :| 0 <= i < |unread| && unread[i] <= all[p].key;
        assert now[i] == unread[i];
      } else {
        assert now[|unread|] == path;
      }
    }
  }

  lemma PlaceNothing(all: seq<Item>, end: Str)
    ensures PlacedIn(all, end, 0, [], [], {}) && LostBelow(all, {}, [])
  {
  }

  lemma PlaceNext(all: seq<Item>, end: Str, pos: nat, given: seq<Item>, at: seq<nat>, lost: set<nat>)
    requires PlacedIn(all, end, pos, given, at, lost) && pos < |all| && IsBelowEnd(all[pos], end)
    ensures PlacedIn(all, end, pos + 1, given + [all[pos]], at + [pos], lost)
  {
    hide IsBelowEnd;
    assert (at + [pos])[|at|] == pos;
    assert forall p :: p in at ==> p in at + [pos];
  }

  lemma PlaceOver(all: seq<Item>, end: Str, pos: nat, given: seq<Item>, at: seq<nat>, lost: set<nat>, pos': nat, lost': set<nat>)
    requires PlacedIn(all, end, pos, given, at, lost) && pos <= pos' <= |all| && lost <= lost'
    requires forall p :: pos <= p < pos' ==> p in lost' || !IsBelowEnd(all[p], end)
    ensures PlacedIn(all, end, pos', given, at, lost')
  {
    hide IsBelowEnd;
  }

  class Iterator {
    const index: Index
    const endPrefix: Str
    const limit: int
    var givenUntilNow: int
    var currentKey: Str
    var currentValue: Refs
    var manifestStack: seq<ManifestState>
    var error: Option<Error>

    /** The loaded nodes that the manifests on the stack represent. */
    ghost var levels: seq<Level>
    /** All that the iterator was set up to go through, how far it has come, what it gave and where
        that stands in `all`. */
    ghost var all: seq<Item>
    ghost var pos: nat
    ghost var given: seq<Item>
    ghost var at: seq<nat>
    /** Branches that could not be loaded, by their paths, and the pairs below them, which are lost to
        this iterator. */
    ghost var skipped: bool
    ghost var lost: set<nat>
    ghost var unread: seq<Str>

    ghost predicate StateOk(s: ManifestState, l: Level)
      reads index, index.feed
    {
      && s.currentIndex == l.index && index.name <= l.tree.name
      && if index.mutable then Rep(true, index.feed.blobs, s.currentManifest, l.tree) else s.currentManifest == l.tree
    }

    ghost predicate StackOk()
      reads this`manifestStack, this`levels, index, index.feed
    {
      && Chain(|index.name|, levels) && |manifestStack| == |levels|
      && forall i :: 0 <= i < |levels| ==> StateOk(manifestStack[i], levels[i])
    }

    /** Whatever could not be loaded, what was given stands in the list, once and in order; what lies
        below the end was given or lost as far as the iterator has come. */
    ghost predicate Placed()
      reads this`all, this`pos, this`given, this`at, this`lost, this`unread, this`skipped
    {
      PlacedIn(all, endPrefix, pos, given, at, lost) && LostBelow(all, lost, unread) && (!skipped ==> lost == {} && unread == [])
    }

    /** What was given is the start of what lies below the end; past the end, nothing more is. */
    ghost predicate GivenOk()
      reads this`all, this`pos, this`given, this`at, this`lost, this`unread, this`givenUntilNow, this`skipped
    {
      && Placed() && pos <= |all| && Ascending(all) && givenUntilNow == |given| && (limit >= 0 ==> |given| <= limit)
      && (!skipped ==>
        && |given| <= pos && given == all[..|given|]
        && (forall k :: 0 <= k < |given| ==> IsBelowEnd(all[k], endPrefix))
        && (|given| < pos ==> forall k :: |given| <= k < |all| ==> !IsBelowEnd(all[k], endPrefix)))
    }

    ghost predicate Valid()
      reads this`manifestStack, this`levels, this`all, this`pos, this`given, this`at, this`lost, this`unread
      reads this`givenUntilNow, this`skipped
      reads index, index.feed
    {
      StackOk() && GivenOk() && pos <= |all| && Items(|index.name|, levels) == all[pos..]
    }

    /** What a complete iteration gives. */
    ghost function Expected(): seq<Item>
      reads this`all
    {
      Window(all, endPrefix, limit)
    }

    constructor (index: Index, end: Str, limit: int)
      ensures this.index == index && endPrefix == end && this.limit == limit
      ensures manifestStack == [] && levels == [] && given == [] && at == [] && givenUntilNow == 0 && pos == 0
      ensures lost == {} && unread == [] && !skipped
    {
      this.index, endPrefix, this.limit := index, end, limit;
      givenUntilNow, currentKey, currentValue, manifestStack, error := 0, [], [], [], None;
      levels, all, pos, given, at, skipped, lost, unread := [], [], 0, [], [], false, {}, [];
    }

    /** What a step has done, also after failed reads: it has given one more pair; or it has given none
        because the limit is reached, nothing below the end is left, or one branch could not be read
        just now, and only the pairs below that branch are lost. */
    ghost predicate Progress(ok: bool, faults: nat, before: seq<nat>, lostBefore: set<nat>, unreadBefore: seq<Str>,
                             errorBefore: Option<Error>)
      reads this`all, this`pos, this`at, this`lost, this`unread, this`error, this`givenUntilNow, index.feed`faults
    {
      && |at| == |before| + (if ok then 1 else 0) && at[..|before|] == before
      && lostBefore <= lost && unreadBefore <= unread
      && if ok || index.feed.faults == faults then
           && lost == lostBefore && unread == unreadBefore && index.feed.faults == faults
           && (ok ==> error == errorBefore)
           && (!ok ==> ((limit >= 0 && givenUntilNow >= limit && error == errorBefore) ||
                (forall k :: pos <= k < |all| ==> !IsBelowEnd(all[k], endPrefix))))
           && (!ok && (limit < 0 || givenUntilNow < limit) ==>
                error == Some(NoNextElement) || (endPrefix != [] && error == errorBefore))
         else |unread| == |unreadBefore| + 1 && error == Some(NoManifestFound)
    }

    lemma GivenIsExpected()
      requires GivenOk() && !skipped
      ensures |given| <= |Expected()| && given == Expected()[..|given|]
      ensures (limit >= 0 && givenUntilNow >= limit) || (forall k :: |given| <= k < |all| ==> !IsBelowEnd(all[k], endPrefix))
        ==> given == Expected()
    {
      BelowEndIsPrefix(all, endPrefix, |given|);
    }

    /** One step. As long as every branch could be loaded, it gives the next expected pair,
        or returns false exactly when all of them have been given. Also after a failed read it gives
        pairs of the list only, in order and below the end, and misses none but those below a branch
        that could not be read. */
    method Next() returns (ok: bool)
      requires Valid()
      modifies this`givenUntilNow, this`currentKey, this`currentValue, this`manifestStack, this`error
      modifies this`levels, this`pos, this`given, this`at, this`skipped, this`lost, this`unread, index.feed`faults
      ensures Valid() && index.feed.faults >= old(index.feed.faults)
      ensures ok ==> given == old(given) + [Item(currentKey, currentValue)]
      ensures !ok ==> given == old(given) && currentKey == old(currentKey) && currentValue == old(currentValue)
      ensures !skipped ==> |given| <= |Expected()| && given == Expected()[..|given|]
      ensures !skipped ==> (ok <==> |old(given)| < |Expected()|)
      ensures !skipped && !ok ==> given == Expected()
      ensures skipped ==> old(skipped) || index.feed.faults > old(index.feed.faults)
      ensures ok ==> at != [] && at[|at| - 1] < |all| && all[at[|at| - 1]] == Item(currentKey, currentValue)
      ensures Placed() && Progress(ok, old(index.feed.faults), old(at), old(lost), old(unread), old(error))
    {
      hide Items, Less, Chain;
      ok := NextStringKey();
      if !skipped {
        GivenIsExpected();
      }
    }

    /** Pops the nodes whose entries are exhausted; false when none is left. */
    method PopExhausted() returns (ok: bool)
      requires StackOk() && manifestStack != []
      modifies this`manifestStack, this`levels, this`error
      ensures StackOk() && Weight(levels) == old(Weight(levels))
      ensures Items(|index.name|, levels) == old(Items(|index.name|, levels))
      ensures ok ==> manifestStack != [] && error == old(error)
      ensures ok ==> levels[|levels| - 1].index < |levels[|levels| - 1].tree.entries|
      ensures !ok ==> Items(|index.name|, levels) == [] && error == Some(NoNextElement)
    {
      hide Items, Leaves, EntryLeaves, Weight, ValidEntries, RepEntry, IsChild;
      ghost var n := |index.name|;
      while manifestStack[|manifestStack| - 1].currentIndex >= |manifestStack[|manifestStack| - 1].currentManifest.entries|
        invariant StackOk() && manifestStack != [] && error == old(error)
        invariant Weight(levels) == old(Weight(levels)) && Items(n, levels) == old(Items(|index.name|, levels))
        decreases |manifestStack|
      {
        assert StateOk(manifestStack[|levels| - 1], levels[|levels| - 1]);
        PopIsSafe(n, levels);
        if |manifestStack| == 1 {
          error := Some(NoNextElement);
          return false;
        }
        manifestStack := manifestStack[..|manifestStack| - 1];
        levels := levels[..|levels| - 1];
      }
      assert StateOk(manifestStack[|levels| - 1], levels[|levels| - 1]);
      return true;
    }

    /** Takes the next entry of the top node off the stack. */
    method TakeEntry() returns (manifest: Manifest, entry: Entry, actualKey: Str)
      requires StackOk() && manifestStack != []
      requires levels[|levels| - 1].index < |levels[|levels| - 1].tree.entries|
      modifies this`manifestStack, this`levels
      ensures StackOk() && levels == Advance(old(levels)) && levels != []
      ensures var l := old(levels)[|levels| - 1]; var f := l.tree.entries[l.index];
        && manifest.name == l.tree.name && actualKey == PathOf(|index.name|, l.tree, f) && IsEntry(l.tree.name, entry, f)
        && entry.etype == f.etype && entry.ref == f.ref && ValidEntry(l.tree.name, f)
        && (f.manifest.Some? ==> index.name <= f.manifest.value.name)
    {
      hide Items, Leaves, EntryLeaves, Weight, ValidEntries, RepEntry;
      var top := |manifestStack| - 1;
      ghost var l := levels[top];
      assert StateOk(manifestStack[top], l);
      manifest := manifestStack[top].currentManifest;
      entry := manifest.entries[manifestStack[top].currentIndex];
      EntryTaken(l, manifest, entry);
      actualKey := TrimPrefix(manifest.name + entry.name, index.name);
      AdvanceTakes(|index.name|, levels);
      manifestStack := manifestStack[top := manifestStack[top].(currentIndex := manifestStack[top].currentIndex + 1)];
      levels := Advance(levels);
    }

    /** What is read off the top of the stack is the next entry of the loaded node, and the key
        computed from it is its path. */
    lemma EntryTaken(l: Level, manifest: Manifest, entry: Entry)
      requires ValidTree(l.tree) && l.index < |l.tree.entries| && StateOk(ManifestState(manifest, l.index), l)
      requires l.index < |manifest.entries| && manifest.entries[l.index] == entry
      ensures ValidEntry(l.tree.name, l.tree.entries[l.index])
      ensures entry.etype == l.tree.entries[l.index].etype && entry.ref == l.tree.entries[l.index].ref
      ensures manifest.name + entry.name == l.tree.name + l.tree.entries[l.index].name
      ensures IsEntry(manifest.name, entry, l.tree.entries[l.index])
      ensures TrimPrefix(manifest.name + entry.name, index.name) == PathOf(|index.name|, l.tree, l.tree.entries[l.index])
      ensures l.tree.entries[l.index].manifest.Some? ==> index.name <= l.tree.entries[l.index].manifest.value.name
    {
      var n, f := |index.name|, l.tree.entries[l.index];
      assert ValidEntry(l.tree.name, f);
      assert (l.tree.name + f.name)[n..] == l.tree.name[n..] + f.name;
      assert index.name <= l.tree.name + f.name;
    }

    ghost predicate IsEntry(base: Str, entry: Entry, f: Entry)
      reads index, index.feed
    {
      if index.mutable then RepEntry(true, index.feed.blobs, base, entry, f) else entry == f
    }

    /** Passes over `k` pairs without giving them: they are past the end, or lost with their branch. */
    ghost method PassOver(k: nat, failed: bool, path: Str)
      requires StackOk() && GivenOk() && pos + k <= |all| && Items(|index.name|, levels) == all[pos + k..]
      requires if failed then forall j :: pos <= j < pos + k ==> path <= all[j].key
               else forall j :: pos <= j < |all| ==> !IsBelowEnd(all[j], endPrefix)
      modifies this`pos, this`skipped, this`lost, this`unread
      ensures Valid() && skipped == (old(skipped) || failed) && pos == old(pos) + k
      ensures old(lost) <= lost && unread == old(unread) + if failed then [path] else []
      ensures !failed ==> lost == old(lost)
      ensures !skipped ==> forall j :: |given| <= j < |all| ==> !IsBelowEnd(all[j], endPrefix)
      ensures !failed && endPrefix != [] ==> Progress(false, old(index.feed.faults), old(at), old(lost), old(unread), old(error))
    {
      hide Items, Less, Chain, PlacedIn, IsBelowEnd, LostBelow;
      ghost var lost' := if failed then lost + Span(pos, pos + k) else lost;
      PlaceOver(all, endPrefix, pos, given, at, lost, pos + k, lost');
      if failed {
        LoseBranch(all, lost, unread, pos, k, path);
      }
      assert unread + [] == unread;
      lost, unread := lost', unread + if failed then [path] else [];
      pos, skipped := pos + k, skipped || failed;
    }

    /** Gives a leaf. */
    method GiveLeaf(key: Str, ref: Refs)
      requires StackOk() && GivenOk() && pos < |all| && all[pos] == Item(key, ref) && IsBelowEnd(all[pos], endPrefix)
      requires Items(|index.name|, levels) == all[pos + 1..] && (limit >= 0 ==> givenUntilNow < limit)
      modifies this`givenUntilNow, this`currentKey, this`currentValue, this`pos, this`given, this`at
      ensures Valid() && given == old(given) + [Item(currentKey, currentValue)] && at == old(at) + [old(pos)]
      ensures Progress(true, old(index.feed.faults), old(at), old(lost), old(unread), old(error))
    {
      hide Items, Leaves, EntryLeaves, Weight, ValidEntries, RepEntry, StackOk, PlacedIn, LostBelow, Ascending, IsBelowEnd;
      PlaceNext(all, endPrefix, pos, given, at, lost);
      currentKey := key;
      currentValue := ref;
      givenUntilNow := givenUntilNow + 1;
      given := given + [Item(key, ref)];
      at := at + [pos];
      pos := pos + 1;
    }

    method NextStringKey() returns (ok: bool)
      requires Valid()
      modifies this`givenUntilNow, this`currentKey, this`currentValue, this`manifestStack, this`error
      modifies this`levels, this`pos, this`given, this`at, this`skipped, this`lost, this`unread, index.feed`faults
      ensures Valid() && index.feed.faults >= old(index.feed.faults)
      ensures ok ==> given == old(given) + [Item(currentKey, currentValue)]
      ensures !ok ==> given == old(given) && currentKey == old(currentKey) && currentValue == old(currentValue)
      ensures !ok && !skipped ==>
        (limit >= 0 && givenUntilNow >= limit) || (forall k :: |given| <= k < |all| ==> !IsBelowEnd(all[k], endPrefix))
      ensures skipped ==> old(skipped) || index.feed.faults > old(index.feed.faults)
      ensures Progress(ok, old(index.feed.faults), old(at), old(lost), old(unread), old(error))
      decreases Weight(levels)
    {
      hide Placed, Leaves, EntryLeaves, Weight, Chain, Less;
      if limit >= 0 {
        if givenUntilNow >= limit {
          return false;
        }
      }
      if |manifestStack| == 0 {
        error := Some(NoNextElement);
        return false;
      }
      ok := PopExhausted();
      if !ok {
        return;
      }
      var entered;
      ok, entered := Step();
      if entered {
        ok := NextStringKey();
      }
    }

    /** What a step does with the next entry: past the end it stops, a leaf it gives, a branch
        it enters. */
    method Step() returns (ok: bool, entered: bool)
      requires Valid() && manifestStack != []
      requires levels[|levels| - 1].index < |levels[|levels| - 1].tree.entries|
      requires limit >= 0 ==> givenUntilNow < limit
      modifies this`givenUntilNow, this`currentKey, this`currentValue, this`manifestStack, this`error
      modifies this`levels, this`pos, this`given, this`at, this`skipped, this`lost, this`unread, index.feed`faults
      ensures Valid() && index.feed.faults >= old(index.feed.faults)
      ensures ok ==> given == old(given) + [Item(currentKey, currentValue)] && !entered
      ensures !ok ==> given == old(given) && currentKey == old(currentKey) && currentValue == old(currentValue)
      ensures !ok && !entered && !skipped ==> forall k :: |given| <= k < |all| ==> !IsBelowEnd(all[k], endPrefix)
      ensures skipped ==> old(skipped) || index.feed.faults > old(index.feed.faults)
      ensures entered ==> Weight(levels) < old(Weight(levels)) && at == old(at) && lost == old(lost)
      ensures entered ==> index.feed.faults == old(index.feed.faults) && unread == old(unread) && error == old(error)
      ensures !entered ==> Progress(ok, old(index.feed.faults), old(at), old(lost), old(unread), old(error))
    {
      hide Placed, GivenOk, StateOk, IsEntry, Enters, Progress, RepEntry, ValidEntry, Leaves,
        EntryLeaves, Items, Weight, ValidEntries, Rep, Chain, Less, Ascending;
      ghost var l := levels[|levels| - 1];
      ghost var f := l.tree.entries[l.index];
      ghost var k := Taking(|index.name|, levels, all, pos, endPrefix);
      var manifest, entry, actualKey := TakeEntry();
      if endPrefix != [] {
        if !Less(actualKey, endPrefix) {
          PassOver(k, false, actualKey);
          return false, false;
        }
      }
      if entry.etype.LeafEntry? {
        GiveLeaf(actualKey, entry.ref);
        return true, false;
      }
      entered := EnterOrLose(manifest, entry, l, f, k, old(levels), actualKey);
      ok := false;
    }

    /** Enters a branch just taken; if it cannot be read, its `k` pairs are lost. */
    method EnterOrLose(manifest: Manifest, entry: Entry, ghost l: Level, ghost f: Entry, ghost k: nat,
                       ghost before: seq<Level>, ghost path: Str)
      returns (entered: bool)
      requires StackOk() && GivenOk() && before != [] && before[|before| - 1] == l && levels == Advance(before)
      requires l.index < |l.tree.entries| && l.tree.entries[l.index] == f && f.etype.IntermediateEntry?
      requires ValidEntry(l.tree.name, f) && IsEntry(l.tree.name, entry, f) && index.name <= f.manifest.value.name
      requires manifest.name == l.tree.name
      requires pos + k <= |all| && Items(|index.name|, levels) == all[pos + k..]
      requires forall j :: pos <= j < pos + k ==> path <= all[j].key
      requires Enters(|index.name|, before, levels + [Level(f.manifest.value, 0)], all, pos)
      modifies this`manifestStack, this`levels, this`error, this`pos, this`skipped, this`lost, this`unread, index.feed`faults
      ensures Valid() && index.feed.faults >= old(index.feed.faults)
      ensures skipped ==> old(skipped) || index.feed.faults > old(index.feed.faults)
      ensures entered ==> Weight(levels) < Weight(before) && skipped == old(skipped)
      ensures !entered ==> skipped && index.feed.faults > old(index.feed.faults) && error == Some(NoManifestFound)
      ensures !entered ==> unread == old(unread) + [path] && at == old(at)
      ensures !entered ==> Progress(false, old(index.feed.faults), old(at), old(lost), old(unread), old(error))
      ensures entered ==>
        index.feed.faults == old(index.feed.faults) && lost == old(lost) && unread == old(unread) && error == old(error)
      ensures old(lost) <= lost
    {
      hide Placed, RepEntry, ValidEntry, Leaves, EntryLeaves, Items, Weight, ValidEntries, Rep, Chain, Less, Ascending;
      entered := EnterBranch(manifest, entry, l, f);
      if !entered {
        PassOver(k, true, path);
      }
    }

    /** Pushes the child of a branch, by name for a mutable index, by pointer otherwise. */
    method EnterBranch(manifest: Manifest, entry: Entry, ghost l: Level, ghost f: Entry) returns (ok: bool)
      requires StackOk() && levels != [] && levels[|levels| - 1] == l.(index := l.index + 1)
      requires l.index < |l.tree.entries| && l.tree.entries[l.index] == f && f.etype.IntermediateEntry?
      requires ValidEntry(l.tree.name, f) && IsEntry(l.tree.name, entry, f) && index.name <= f.manifest.value.name
      requires manifest.name == l.tree.name
      modifies this`manifestStack, this`levels, this`error, index.feed`faults
      ensures StackOk() && index.feed.faults >= old(index.feed.faults)
      ensures ok ==> levels == old(levels) + [Level(f.manifest.value, 0)] && index.feed.faults == old(index.feed.faults)
      ensures ok ==> error == old(error)
      ensures !ok ==> levels == old(levels) && index.feed.faults > old(index.feed.faults) && error == Some(NoManifestFound)
    {
      hide Items, Leaves, EntryLeaves, Weight, ValidEntries, Chain;
      var newManifest: Manifest;
      if index.mutable {
        var loaded := index.feed.Load(manifest.name + entry.name);
        if loaded.Err? {
          error := Some(loaded.error);
          return false;
        }
        newManifest := loaded.value;
      } else {
        newManifest := entry.manifest.value;
      }
      PushEnters(|index.name|, levels, f.manifest.value);
      manifestStack := manifestStack + [ManifestState(newManifest, 0)];
      levels := levels + [Level(f.manifest.value, 0)];
      return true;
    }

    /** The current key as an integer. */
    method IntegerKey() returns (r: int)
      ensures forall i :: IsInt64(i) && currentKey == FormatKey(i) ==> r == i
      ensures ParseInt(currentKey).Some? ==> NumberKey(currentKey) == Some(FormatKey(r))
      ensures ParseInt(currentKey).None? ==> r == -1
    {
      forall i | IsInt64(i) ensures ParseInt(FormatKey(i)) == Some(i) {
        KeyRoundTrip(i);
      }
      var gotKey := ParseInt(currentKey);
      if gotKey.None? {
        return -1;
      }
      return gotKey.value;
    }

    // ----- Seek -----

    ghost predicate Matches(m: Manifest, t: Manifest)
      reads index, index.feed
    {
      if index.mutable then Rep(true, index.feed.blobs, m, t) else m == t
    }

    /** The index can be read as a whole: by name, or from the loaded copy of an immutable one. */
    ghost predicate IndexOk()
      reads index, index.feed
    {
      if index.mutable then index.Valid(true)
      else index.memDB == Some(index.tree) && ValidTree(index.tree) && index.tree.name == index.name
    }

    /** Pushes a node with the position of its next entry. */
    method PushState(manifest: Manifest, i: nat, ghost t: Manifest)
      requires StackOk() && Matches(manifest, t) && ValidTree(t) && index.name <= t.name && i <= |t.entries|
      requires levels == [] || IsChild(levels[|levels| - 1], t)
      modifies this`manifestStack, this`levels
      ensures StackOk() && levels == old(levels) + [Level(t, i)]
      ensures Items(|index.name|, levels) ==
              Under(t.name[|index.name|..], Leaves(t.entries[i..])) + Items(|index.name|, old(levels))
    {
      hide Items, Leaves, EntryLeaves, Weight, ValidEntries, RepEntry;
      PushItems(|index.name|, levels, t, i);
      manifestStack := manifestStack + [ManifestState(manifest, i)];
      levels := levels + [Level(t, i)];
    }

    /** The child below an entry of a node: by name for a mutable index or an unloaded child. */
    method LoadChild(manifest: Manifest, i: nat, ghost t: Manifest) returns (r: Result<Manifest>)
      requires Matches(manifest, t) && ValidTree(t) && i < |t.entries| && t.entries[i].etype.IntermediateEntry?
      modifies index.feed`faults
      ensures t.entries[i].manifest.Some? && ValidTree(t.entries[i].manifest.value)
      ensures t.name <= t.entries[i].manifest.value.name
      ensures r.Ok? ==> Matches(r.value, t.entries[i].manifest.value)
      ensures index.feed.faults >= old(index.feed.faults)
      ensures r.Err? ==> r.error == NoManifestFound && index.feed.faults > old(index.feed.faults)
    {
      var entry := manifest.entries[i];
      assert ValidEntry(t.name, t.entries[i]);
      assert index.mutable ==> RepEntry(true, index.feed.blobs, t.name, entry, t.entries[i]);
      if index.mutable || entry.manifest.None? {
        r := index.feed.Load(manifest.name + entry.name);
      } else {
        r := Ok(entry.manifest.value);
      }
    }

    /** Positions the stack for `key` below one node. */
    method SeekStringKey(manifest: Manifest, key: Str, ghost t: Manifest) returns (r: Outcome)
      requires StackOk() && Matches(manifest, t) && ValidTree(t) && index.name <= t.name
      requires levels == [] || IsChild(levels[|levels| - 1], t)
      modifies this`manifestStack, this`levels, index.feed`faults
      ensures StackOk() && index.feed.faults >= old(index.feed.faults)
      ensures r.Done? ==>
        Items(|index.name|, levels) == Under(t.name[|index.name|..], SeekLeaves(t.entries, key)) + Items(|index.name|, old(levels))
      ensures r == Failed(EntryNotFound) ==>
        levels == old(levels) && manifestStack == old(manifestStack) && SeekLeaves(t.entries, key) == []
      ensures r == Failed(EntryNotFound) ==> !Meets(t.entries, key)
      ensures r.Done? ==> Meets(t.entries, key)
      ensures r.Failed? && r.error != EntryNotFound ==> index.feed.faults > old(index.feed.faults)
      decreases t, 1
    {
      hide Items, Leaves, EntryLeaves, Weight, SeekLeaves, Chain, Less;
      for i := 0 to |manifest.entries|
        invariant levels == old(levels) && manifestStack == old(manifestStack)
        invariant index.feed.faults == old(index.feed.faults)
        invariant SeekLeaves(t.entries, key) == SeekLeaves(t.entries[i..], key)
        invariant forall j :: 0 <= j < i ==> !StopsAt(t.entries[j], key) && !GoesBelow(t.entries[j], key)
      {
        var entry := manifest.entries[i];
        ghost var f := t.entries[i];
        SeekStep(t, i, key);
        assert entry.name == f.name && entry.etype == f.etype;
        if StopsAt(entry, key) {
          PushState(manifest, i, t);
          return Done;
        }
        if GoesBelow(entry, key) {
          r := SeekBelow(manifest, i, key, t);
          return;
        }
      }
      SeekEnd(t, key);
      return Failed(EntryNotFound);
    }

    /** Goes on below the entry at `i`, having pushed the node with the entry after it. */
    method SeekBelow(manifest: Manifest, i: nat, key: Str, ghost t: Manifest) returns (r: Outcome)
      requires StackOk() && Matches(manifest, t) && ValidTree(t) && index.name <= t.name && i < |t.entries|
      requires |manifest.entries| == |t.entries| && manifest.entries[i].name == t.entries[i].name
      requires levels == [] || IsChild(levels[|levels| - 1], t)
      requires !StopsAt(t.entries[i], key) && GoesBelow(t.entries[i], key)
      modifies this`manifestStack, this`levels, index.feed`faults
      ensures StackOk() && index.feed.faults >= old(index.feed.faults)
      ensures r.Done? ==> (Items(|index.name|, levels) ==
        Under(t.name[|index.name|..], SeekLeaves(t.entries[i..], key)) + Items(|index.name|, old(levels)))
      ensures r.Failed? ==> r.error != EntryNotFound && index.feed.faults > old(index.feed.faults)
      decreases t, 0
    {
      hide Items, Leaves, EntryLeaves, Weight, SeekLeaves, Chain, Less, ValidEntries, RepEntry, StopsAt;
      PushState(manifest, i + 1, t);
      var loaded := LoadChild(manifest, i, t);
      if loaded.Err? {
        return Failed(loaded.error);
      }
      assert index.name == t.name[..|index.name|];
      r := SeekStringKey(loaded.value, key[|manifest.entries[i].name|..], t.entries[i].manifest.value);
      SeekJoins(|index.name|, t, i, key, Items(|index.name|, old(levels)));
      if r == Failed(EntryNotFound) {
        r := Done;
      }
    }

    /** Loads the root, or takes the loaded copy of an immutable index, and positions the stack. */
    method Seek(key: Str) returns (r: Outcome)
      requires IndexOk() && manifestStack == [] && levels == [] && given == [] && at == [] && givenUntilNow == 0
      requires lost == {} && unread == [] && !skipped
      modifies this`manifestStack, this`levels, this`all, this`pos, index.feed`faults
      ensures index.feed.faults >= old(index.feed.faults)
      ensures r.Done? || r == Failed(EntryNotFound) ==> Valid() && pos == 0 && all == SeekLeaves(index.tree.entries, key)
      ensures r == Failed(EntryNotFound) ==> all == []
      ensures index.feed.faults == old(index.feed.faults) ==>
        r == if Meets(index.tree.entries, key) then Done else Failed(EntryNotFound)
    {
      hide Items, Leaves, EntryLeaves, Weight, ValidEntries, SeekLeaves, Under, Ascending, PlacedIn, LostBelow, IsBelowEnd, Less;
      var manifest: Manifest;
      if index.mutable {
        var loaded := index.feed.Load(index.name);
        if loaded.Err? {
          return Failed(loaded.error);
        }
        manifest := loaded.value;
      } else {
        manifest := index.memDB.value;
      }
      r := SeekStringKey(manifest, key, index.tree);
      StartItems(|index.name|, index.tree.name, SeekLeaves(index.tree.entries, key));
      all, pos := Items(|index.name|, levels), 0;
      ItemsAscend(|index.name|, levels);
      PlaceNothing(all, endPrefix);
      assert all[0..] == all;
    }
  }

  /** A new iterator over the keys from `start` on that lie below `end`. */
  method NewStringIterator(index: Index, start: Str, end: Str, limit: int) returns (r: Result<Iterator>)
    requires if index.mutable then index.Valid(true)
             else index.memDB == Some(index.tree) && ValidTree(index.tree) && index.tree.name == index.name
    modifies index.feed`faults
    ensures index.feed.faults >= old(index.feed.faults)
    ensures r.Ok? ==> fresh(r.value) && r.value.Valid() && r.value.index == index && !r.value.skipped && r.value.given == []
    ensures r.Ok? ==> r.value.endPrefix == end && r.value.limit == limit
    ensures r.Ok? ==>
      r.value.all == if start == [] then Leaves(index.tree.entries) else SeekLeaves(index.tree.entries, start)
    ensures index.feed.faults == old(index.feed.faults) ==>
      (r.Err? <==> start != [] && !Meets(index.tree.entries, start)) && (r.Err? ==> r.error == EntryNotFound)
  {
    hide Items, Leaves, EntryLeaves, Weight, ValidEntries, RepEntry, SeekLeaves, Ascending, PlacedIn, LostBelow, IsBelowEnd, Less;
    var manifest: Manifest;
    if index.mutable {
      var loaded := index.feed.Load(index.name);
      if loaded.Err? {
        return Err(EmptyIndex);
      }
      manifest := loaded.value;
    } else {
      manifest := index.memDB.value;
    }
    var itr := new Iterator(index, end, limit);
    if start != [] {
      var sought := itr.Seek(start);
      if sought.Failed? {
        return Err(sought.error);
      }
    } else {
      itr.PushState(manifest, 0, index.tree);
      itr.all := Leaves(index.tree.entries);
      assert index.tree.entries[0..] == index.tree.entries;
      StartItems(|index.name|, index.tree.name, Leaves(index.tree.entries));
      LeavesAscend(index.tree.name, index.tree.entries);
      PlaceNothing(itr.all, end);
      assert itr.all[0..] == itr.all;
    }
    return Ok(itr);
  }
}
