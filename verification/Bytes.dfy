/** Go strings as byte sequences, with the order and the prefix arithmetic the
    radix index relies on. */
module Bytes {
  type Byte = b: int | 0 <= b < 256
  type Str = seq<Byte>

  /** The byte a node is ordered by; the empty string comes before every byte. */
  function Head(s: Str): int {
    if s == [] then -1 else s[0]
  }

  /** Go's `a < b` on strings. */
  predicate Less(a: Str, b: Str) {
    b != [] && (a == [] || a[0] < b[0] || (a[0] == b[0] && Less(a[1..], b[1..])))
  }

  /** Go's `a <= b` on strings. */
  predicate AtMost(a: Str, b: Str) {
    a == b || Less(a, b)
  }

  /** Neither string is a prefix of the other. */
  predicate Apart(a: Str, b: Str) {
    !(a <= b) && !(b <= a)
  }

  // ----- The order is a strict total order, and it is left-invariant -----

  lemma {:induction false} LessIsTotal(a: Str, b: Str)
    ensures Less(a, b) || a == b || Less(b, a)
    ensures !(Less(a, b) && Less(b, a))
    ensures Less(a, b) ==> a != b
  {
    if a != [] && b != [] {
      LessIsTotal(a[1..], b[1..]);
      if a[0] == b[0] && a[1..] == b[1..] {
        assert a == [a[0]] + a[1..] == b;
      }
    }
  }

  lemma {:induction false} LessIsTransitive(a: Str, b: Str, c: Str)
    requires AtMost(a, b) && AtMost(b, c)
    ensures AtMost(a, c)
    ensures Less(a, b) || Less(b, c) ==> Less(a, c)
  {
    if a != [] && b != [] && c != [] && a != b && b != c && a[0] == b[0] == c[0] {
      LessIsTransitive(a[1..], b[1..], c[1..]);
    }
  }

  lemma {:induction false} LessUnderPrefix(p: Str, a: Str, b: Str)
    ensures Less(p + a, p + b) <==> Less(a, b)
  {
    if p == [] {
      assert p + a == a && p + b == b;
    } else {
      LessUnderPrefix(p[1..], a, b);
      assert (p + a)[1..] == p[1..] + a && (p + b)[1..] == p[1..] + b;
    }
  }

  lemma AtMostUnder(p: Str, a: Str, b: Str)
    ensures AtMost(p + a, p + b) <==> AtMost(a, b)
  {
    LessUnderPrefix(p, a, b);
    assert (p + a)[|p|..] == a && (p + b)[|p|..] == b;
  }

  lemma {:induction false} PrefixIsAtMost(a: Str, b: Str)
    requires a <= b
    ensures AtMost(a, b)
  {
    if a != [] && a != b {
      assert a[0] == b[0];
      assert b == [b[0]] + b[1..];
      assert a == [a[0]] + a[1..];
      assert a[1..] <= b[1..];
      PrefixIsAtMost(a[1..], b[1..]);
    }
  }

  lemma PrefixesAreNested(a: Str, b: Str, y: Str)
    ensures a <= y && b <= y ==> a <= b || b <= a
  {
    if a <= y && b <= y {
      if |a| <= |b| {
        assert a == y[..|a|] == b[..|a|];
      } else {
        assert b == y[..|b|] == a[..|b|];
      }
    }
  }

  lemma ApartUnderExtension(a: Str, b: Str, x: Str, y: Str)
    requires Apart(a, b) && a <= x && b <= y
    ensures Apart(x, y)
  {
    PrefixesAreNested(a, b, x);
    PrefixesAreNested(a, b, y);
  }

  lemma ApartByHead(base: Str, a: Str, b: Str)
    requires a != [] && b != [] && a[0] != b[0]
    ensures Apart(base + a, base + b)
  {
    assert (base + a)[|base|] == a[0];
    assert (base + b)[|base|] == b[0];
  }

  lemma PrefixTransitive(a: Str, x: Str, n: Str)
    ensures a + x <= n ==> a <= n && (x != [] ==> a != n)
  {
    if a + x <= n {
      assert a == n[..|a|];
    }
  }

  // ----- Longest common prefix (pkg/collection/index.go:365-385) -----

  /** How many leading bytes two strings share. */
  function CommonLength(a: Str, b: Str): (n: nat)
    ensures n <= |a| && n <= |b|
    ensures a[..n] == b[..n]
    ensures n < |a| && n < |b| ==> a[n] != b[n]
    ensures n > 0 <==> a != [] && b != [] && a[0] == b[0]
  {
    if a == [] || b == [] || a[0] != b[0] then 0
    else
      var n := 1 + CommonLength(a[1..], b[1..]);
      assert a[..n] == [a[0]] + a[1..][..n - 1];
      assert b[..n] == [b[0]] + b[1..][..n - 1];
      n
  }

  lemma {:induction false} CommonLengthIsUnique(a: Str, b: Str, n: nat)
    requires n <= |a| && n <= |b| && a[..n] == b[..n]
    requires n < |a| && n < |b| ==> a[n] != b[n]
    ensures n == CommonLength(a, b)
  {
    if n > 0 {
      assert a[0] == a[..n][0] == b[..n][0] == b[0];
      assert a[1..][..n - 1] == a[..n][1..] && b[1..][..n - 1] == b[..n][1..];
      CommonLengthIsUnique(a[1..], b[1..], n - 1);
    }
  }

  method LongestCommonPrefix(str1: Str, str2: Str) returns (prefix: Str, suffix1: Str, suffix2: Str)
    ensures str1 == [] || str2 == [] ==> prefix == suffix1 == suffix2 == []
    ensures str1 != [] && str2 != [] ==> prefix + suffix1 == str1 && prefix + suffix2 == str2
    ensures suffix1 != [] && suffix2 != [] ==> suffix1[0] != suffix2[0]
    ensures |prefix| == CommonLength(str1, str2)
  {
    if str1 == [] || str2 == [] {
      return [], [], [];
    }
    var maxLen := |str2|;
    if |str1| < |str2| {
      maxLen := |str1|;
    }
    var matchLen := 0;
    for i := 0 to maxLen
      invariant matchLen == i
      invariant str1[..i] == str2[..i]
    {
      if str1[i] != str2[i] {
        break;
      }
      matchLen := matchLen + 1;
    }
    CommonLengthIsUnique(str1, str2, matchLen);
    if matchLen == 0 {
      return [], str1, str2;
    }
    return str1[..matchLen], str1[matchLen..], str2[matchLen..];
  }
}
