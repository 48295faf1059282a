/** What a complete range iteration gives, in terms of the map the index stands for. */
module Ranges {
  import opened Bytes
  import opened Tree
  import opened Iteration
  import opened Seeking
  import opened Numbers

  lemma {:induction false} BelowEndMembers(xs: seq<Item>, end: Str, x: Item)
    ensures x in BelowEnd(xs, end) <==> x in xs && IsBelowEnd(x, end)
  {
    if xs != [] {
      BelowEndMembers(xs[1..], end, x);
      assert xs == [xs[0]] + xs[1..];
    }
  }

  lemma {:induction false} NotSmallerMembers(xs: seq<Item>, key: Str, x: Item)
    ensures x in NotSmaller(xs, key) <==> x in xs && AtMost(key, x.key)
  {
    if xs != [] {
      NotSmallerMembers(xs[1..], key, x);
      assert xs == [xs[0]] + xs[1..];
    }
  }

  lemma ConsAscends(x: Item, xs: seq<Item>)
    requires StrictlyAscending(xs) && forall y :: y in xs ==> Less(x.key, y.key)
    ensures StrictlyAscending([x] + xs)
  {
  }

  lemma {:induction false} BelowEndAscends(xs: seq<Item>, end: Str)
    requires StrictlyAscending(xs)
    ensures StrictlyAscending(BelowEnd(xs, end))
  {
    if xs != [] {
      BelowEndAscends(xs[1..], end);
      forall y | y in BelowEnd(xs[1..], end) ensures Less(xs[0].key, y.key) {
        BelowEndMembers(xs[1..], end, y);
        var i :| 0 <= i < |xs[1..]| && xs[1..][i] == y;
        assert xs[i + 1] == y;
      }
      ConsAscends(xs[0], BelowEnd(xs[1..], end));
      assert [] + BelowEnd(xs[1..], end) == BelowEnd(xs[1..], end);
    }
  }

  lemma {:induction false} NotSmallerAscends(xs: seq<Item>, key: Str)
    requires StrictlyAscending(xs)
    ensures StrictlyAscending(NotSmaller(xs, key))
  {
    if xs != [] {
      NotSmallerAscends(xs[1..], key);
      forall y | y in NotSmaller(xs[1..], key) ensures Less(xs[0].key, y.key) {
        NotSmallerMembers(xs[1..], key, y);
        var i :| 0 <= i < |xs[1..]| && xs[1..][i] == y;
        assert xs[i + 1] == y;
      }
      ConsAscends(xs[0], NotSmaller(xs[1..], key));
      assert [] + NotSmaller(xs[1..], key) == NotSmaller(xs[1..], key);
    }
  }

  /** In a strictly ascending list the pairs are those of the map. */
  lemma {:induction false} PairsAreContents(xs: seq<Item>, k: Str, refs: Refs)
    requires StrictlyAscending(xs)
    ensures Item(k, refs) in xs <==> k in Contents(xs) && Contents(xs)[k] == refs
  {
    if xs != [] {
      PairsAreContents(xs[1..], k, refs);
      assert xs == [xs[0]] + xs[1..];
      if xs[0].key == k && Item(k, refs) in xs[1..] {
        var i :| 0 <= i < |xs[1..]| && xs[1..][i] == Item(k, refs);
        LessIsTotal(xs[0].key, xs[i + 1].key);
      }
    }
  }

  /** The list that `NewStringIterator` sets out to go through. */
  function From(es: seq<Entry>, start: Str): seq<Item> {
    if start == [] then Leaves(es) else SeekLeaves(es, start)
  }

  /** With no shadowed leaf and no greater branch on the way to the start, an iteration gives
      the keys of the map from the start on and below the end: all of them, each once, in
      strictly ascending order, with their values; and a limit cuts the list short. */
  lemma RangeIsExact(base: Str, es: seq<Entry>, start: Str, end: Str, limit: int, k: Str, refs: Refs)
    requires ValidEntries(base, es) && OneEmpty(es)
    requires start == [] || NoGreaterBranch(es, start)
    ensures StrictlyAscending(Window(From(es, start), end, limit))
    ensures limit < 0 ==> (Item(k, refs) in Window(From(es, start), end, limit) <==>
      k in Contents(Leaves(es)) && Contents(Leaves(es))[k] == refs && AtMost(start, k) && (end == [] || Less(k, end)))
    ensures limit >= 0 ==> var all := Window(From(es, start), end, -1);
      Window(From(es, start), end, limit) == if limit < |all| then all[..limit] else all
  {
    hide Leaves, Contents, OneEmpty, ValidEntries, BelowEnd, NotSmaller, SeekLeaves, AtMost, Less;
    LeavesAscend(base, es);
    var xs, from := Leaves(es), From(es, start);
    if start != [] {
      GuardSuffices(base, es, start);
      NotSmallerAscends(xs, start);
      NotSmallerMembers(xs, start, Item(k, refs));
    } else {
      EmptyIsLeast(k);
    }
    BelowEndAscends(from, end);
    BelowEndMembers(from, end, Item(k, refs));
    PairsAreContents(xs, k, refs);
  }

  lemma EmptyIsLeast(k: Str)
    ensures AtMost([], k)
  {
  }

  /** A full iteration is as long as the map is large. */
  lemma FullIterationCounts(base: Str, es: seq<Entry>)
    requires ValidEntries(base, es) && OneEmpty(es)
    ensures |Window(From(es, []), [], -1)| == |Contents(Leaves(es))|
  {
    LeavesAscend(base, es);
    CountIsKeys(Leaves(es));
    EverythingIsBelow(Leaves(es));
  }

  lemma {:induction false} EverythingIsBelow(xs: seq<Item>)
    ensures BelowEnd(xs, []) == xs
  {
    if xs != [] {
      EverythingIsBelow(xs[1..]);
    }
  }

  /** If the keys of a listing are fixed-width decimals of non-negative numbers, the listing
      is in the order of the numbers, and reading the keys gives the numbers back. */
  lemma NumberListingAscends(xs: seq<Item>, ns: seq<int>)
    requires StrictlyAscending(xs) && |xs| == |ns|
    requires forall i :: 0 <= i < |ns| ==> 0 <= ns[i] < TWO_TO_63 && xs[i].key == FormatKey(ns[i])
    ensures forall i, j :: 0 <= i < j < |ns| ==> ns[i] < ns[j]
    ensures forall i :: 0 <= i < |ns| ==> ParseInt(xs[i].key) == Some(ns[i])
  {
    forall i, j | 0 <= i < j < |ns| ensures ns[i] < ns[j] {
      KeyOrder(ns[i], ns[j]);
    }
    forall i | 0 <= i < |ns| ensures ParseInt(xs[i].key) == Some(ns[i]) {
      KeyRoundTrip(ns[i]);
    }
  }
}
