/** Number keys: decimal strings of any spelling, stored as fixed-width decimals. */
module Numbers {
  import opened Bytes
  import opened Tree

  const MINUS: Byte := 45
  const PLUS: Byte := 43
  const ZERO: Byte := 48
  const TWO_TO_63: int := 0x8000_0000_0000_0000

  /** The range of `int64`. */
  predicate IsInt64(i: int) {
    -TWO_TO_63 <= i < TWO_TO_63
  }

  predicate AllDigits(d: Str) {
    forall i :: 0 <= i < |d| ==> ZERO <= d[i] <= ZERO + 9
  }

  /** The number that a string of digits denotes. */
  function Value(d: Str): (n: nat)
    requires AllDigits(d)
  {
    if d == [] then 0 else 10 * Value(d[..|d| - 1]) + (d[|d| - 1] - ZERO)
  }

  /** `strconv.ParseInt(s, 10, 64)`. */
  function ParseInt(s: Str): (r: Option<int>)
    ensures r.Some? ==> IsInt64(r.value)
  {
    if s == [] then None
    else
      var d := if s[0] == MINUS || s[0] == PLUS then s[1..] else s;
      if d == [] || !AllDigits(d) then None
      else
        var n: int := Value(d);
        var v := if s[0] == MINUS then -n else n;
        if IsInt64(v) then Some(v) else None
  }

  /** The last `w` decimal digits of `n`, with leading zeros. */
  function Pad(n: nat, w: nat): (d: Str)
    ensures |d| == w && AllDigits(d)
  {
    if w == 0 then [] else Pad(n / 10, w - 1) + [ZERO + n % 10]
  }

  /** `fmt.Sprintf("%020d", i)`: twenty characters, sign included. */
  function FormatKey(i: int): Str {
    if i < 0 then [MINUS] + Pad(-i, 19) else Pad(i, 20)
  }

  /** The key under which a number index keeps a spelling of a number. */
  function NumberKey(s: Str): Option<Str> {
    var i := ParseInt(s);
    if i.Some? then Some(FormatKey(i.value)) else None
  }

  function Pow10(w: nat): nat {
    if w == 0 then 1 else 10 * Pow10(w - 1)
  }

  lemma {:induction false} ValueOfPad(n: nat, w: nat)
    requires n < Pow10(w)
    ensures Value(Pad(n, w)) == n
  {
    if w > 0 {
      var d := Pad(n, w);
      ValueOfPad(n / 10, w - 1);
      assert d[..w - 1] == Pad(n / 10, w - 1);
    }
  }

  lemma {:induction false} LessIsExtended(p: Str, q: Str, x: Str, y: Str)
    requires |p| == |q| && Less(p, q)
    ensures Less(p + x, q + y)
  {
    if p[0] == q[0] {
      LessIsExtended(p[1..], q[1..], x, y);
      assert (p + x)[1..] == p[1..] + x && (q + y)[1..] == q[1..] + y;
    }
  }

  lemma {:induction false} PadKeepsOrder(a: nat, b: nat, w: nat)
    requires a < b < Pow10(w)
    ensures Less(Pad(a, w), Pad(b, w))
  {
    var p, q := Pad(a / 10, w - 1), Pad(b / 10, w - 1);
    var x, y := [ZERO + a % 10], [ZERO + b % 10];
    if a / 10 < b / 10 {
      PadKeepsOrder(a / 10, b / 10, w - 1);
      LessIsExtended(p, q, x, y);
    } else {
      assert a / 10 == b / 10;
      LessUnderPrefix(p, x, y);
    }
  }

  lemma Int64FitsKey()
    ensures TWO_TO_63 < Pow10(19) < Pow10(20)
  {
    assert Pow10(4) == 10000;
    assert Pow10(8) == 1_0000_0000;
    assert Pow10(12) == 1_0000_0000_0000;
    assert Pow10(16) == 1_0000_0000_0000_0000;
    assert Pow10(19) == 1000_0000_0000_0000_0000;
  }

  /** Formatting a number and parsing the key gives the number back. */
  lemma KeyRoundTrip(i: int)
    requires IsInt64(i)
    ensures ParseInt(FormatKey(i)) == Some(i)
  {
    hide Pow10, Pad, Value;
    Int64FitsKey();
    if i < 0 {
      ValueOfPad(-i, 19);
      assert FormatKey(i)[1..] == Pad(-i, 19);
    } else {
      ValueOfPad(i, 20);
    }
  }

  /** Two spellings share a key exactly when they denote one number. */
  lemma SpellingsAgree(s: Str, s': Str)
    requires NumberKey(s).Some? && NumberKey(s').Some?
    ensures NumberKey(s) == NumberKey(s') <==> ParseInt(s) == ParseInt(s')
    ensures NumberKey(NumberKey(s).value) == NumberKey(s)
  {
    KeyRoundTrip(ParseInt(s).value);
    KeyRoundTrip(ParseInt(s').value);
  }

  /** Byte order of keys: numeric, except that negative numbers come in reverse. */
  lemma KeyOrder(a: int, b: int)
    requires IsInt64(a) && IsInt64(b)
    ensures Less(FormatKey(a), FormatKey(b)) <==> if a < 0 && b < 0 then b < a else a < b
  {
    Int64FitsKey();
    if a < 0 && b < 0 {
      LessUnderPrefix([MINUS], Pad(-a, 19), Pad(-b, 19));
      PadOrder(-a, -b, 19);
    } else if a >= 0 && b >= 0 {
      PadOrder(a, b, 20);
    }
  }

  lemma PadOrder(a: nat, b: nat, w: nat)
    requires a < Pow10(w) && b < Pow10(w)
    ensures Less(Pad(a, w), Pad(b, w)) <==> a < b
  {
    LessIsTotal(Pad(a, w), Pad(b, w));
    if a < b {
      PadKeepsOrder(a, b, w);
    } else if b < a {
      PadKeepsOrder(b, a, w);
    }
  }

  /** Listing by key is listing by number exactly for pairs that are not both negative. */
  lemma KeyOrderIsNumeric(a: int, b: int)
    requires IsInt64(a) && IsInt64(b)
    ensures (Less(FormatKey(a), FormatKey(b)) <==> a < b) <==> !(a < 0 && b < 0 && a != b)
  {
    KeyOrder(a, b);
  }

  // ----- Spellings -----

  /** The shortest decimal of a number. */
  function Digits(n: nat): Str {
    if n < 10 then [ZERO + n] else Digits(n / 10) + [ZERO + n % 10]
  }

  function Zeros(k: nat): (z: Str)
    ensures |z| == k
  {
    if k == 0 then [] else [ZERO] + Zeros(k - 1)
  }

  /** The string is a sign, which is optional for a number that is not negative, any number of
      zeros, and the shortest decimal of the number without its sign. */
  ghost predicate Spells(s: Str, i: int) {
    exists k: nat ::
      || (i >= 0 && s == Zeros(k) + Digits(i))
      || (i >= 0 && s == [PLUS] + (Zeros(k) + Digits(i)))
      || (i <= 0 && s == [MINUS] + (Zeros(k) + Digits(-i)))
  }

  lemma {:induction false} ZerosEnd(k: nat)
    ensures Zeros(k) + [ZERO] == Zeros(k + 1)
  {
    if k > 0 {
      ZerosEnd(k - 1);
      assert Zeros(k) + [ZERO] == [ZERO] + (Zeros(k - 1) + [ZERO]);
    }
  }

  lemma {:induction false} ValueOfZeros(k: nat)
    ensures AllDigits(Zeros(k)) && Value(Zeros(k)) == 0
  {
    if k > 0 {
      ValueOfZeros(k - 1);
      ZerosEnd(k - 1);
      assert Zeros(k)[..k - 1] == Zeros(k - 1);
    }
  }

  lemma {:induction false} ValueOfDigits(k: nat, n: nat)
    ensures Digits(n) != [] && AllDigits(Digits(n)) && AllDigits(Zeros(k) + Digits(n))
    ensures Value(Zeros(k) + Digits(n)) == n
  {
    hide Zeros, Digits, Value, AllDigits;
    ValueOfZeros(k);
    DigitsSplit(n);
    if n < 10 {
      ValueOfMore(Zeros(k), ZERO + n);
      ValueOfMore([], ZERO + n) by { NoDigits(); }
      assert [] + [ZERO + n] == [ZERO + n];
    } else {
      ValueOfDigits(k, n / 10);
      ValueOfMore(Digits(n / 10), ZERO + n % 10);
      ValueOfMore(Zeros(k) + Digits(n / 10), ZERO + n % 10);
      assert Zeros(k) + Digits(n) == Zeros(k) + Digits(n / 10) + [ZERO + n % 10];
    }
  }

  lemma DigitsSplit(n: nat)
    ensures Digits(n) == if n < 10 then [ZERO + n] else Digits(n / 10) + [ZERO + n % 10]
  {
  }

  lemma NoDigits()
    ensures AllDigits([])
  {
  }

  lemma ValueOfMore(d: Str, x: Byte)
    requires AllDigits(d) && ZERO <= x <= ZERO + 9
    ensures AllDigits(d + [x]) && Value(d + [x]) == 10 * Value(d) + (x - ZERO)
  {
    assert (d + [x])[..|d|] == d;
  }

  lemma DigitsEnd(v: nat, x: Byte)
    requires ZERO <= x <= ZERO + 9
    ensures Digits(10 * v + (x - ZERO)) == if v == 0 then [x] else Digits(v) + [x]
  {
    assert (10 * v + (x - ZERO)) / 10 == v && (10 * v + (x - ZERO)) % 10 == x - ZERO;
  }

  lemma LastDigit(d: Str)
    requires d != [] && AllDigits(d)
    ensures var p, x := d[..|d| - 1], d[|d| - 1];
      && d == p + [x] && ZERO <= x <= ZERO + 9 && AllDigits(p) && Value(d) == 10 * Value(p) + (x - ZERO)
      && (p == [] ==> Value(p) == 0)
  {
  }

  lemma NoZeros()
    ensures Zeros(0) == []
  {
  }

  lemma {:induction false} DigitsOfValue(d: Str) returns (k: nat)
    requires d != [] && AllDigits(d)
    ensures d == Zeros(k) + Digits(Value(d))
  {
    hide Digits, Value, Zeros, AllDigits;
    LastDigit(d);
    var p, x := d[..|d| - 1], d[|d| - 1];
    DigitsEnd(Value(p), x);
    if p == [] {
      k := 0;
      NoZeros();
    } else {
      k := DigitsOfValue(p);
      if Value(p) > 0 {
        assert d == Zeros(k) + (Digits(Value(p)) + [x]);
      } else {
        DigitsEnd(0, ZERO);
        ZerosEnd(k);
        k := k + 1;
      }
    }
  }

  /** What a sign and digits parse as. */
  lemma ParseDigits(d: Str)
    requires d != [] && AllDigits(d)
    ensures var n: int := Value(d);
      && ParseInt(d) == ParseInt([PLUS] + d) == (if IsInt64(n) then Some(n) else None)
      && ParseInt([MINUS] + d) == (if IsInt64(-n) then Some(-n) else None)
  {
    hide Value;
    assert ([PLUS] + d)[1..] == d && ([MINUS] + d)[1..] == d;
    assert d[0] >= ZERO;
  }

  lemma SpelledParses(s: Str, i: int)
    requires IsInt64(i) && Spells(s, i)
    ensures ParseInt(s) == Some(i)
  {
    hide Digits, Value, Zeros, ParseInt;
    var k: nat :|
      || (i >= 0 && s == Zeros(k) + Digits(i))
      || (i >= 0 && s == [PLUS] + (Zeros(k) + Digits(i)))
      || (i <= 0 && s == [MINUS] + (Zeros(k) + Digits(-i)));
    var n := if i < 0 then -i else i;
    ValueOfDigits(k, n);
    ParseDigits(Zeros(k) + Digits(n));
  }

  lemma ParsedSpells(s: Str)
    requires ParseInt(s).Some?
    ensures Spells(s, ParseInt(s).value)
  {
    hide Digits, Value, Zeros;
    var d := if s[0] == MINUS || s[0] == PLUS then s[1..] else s;
    var k := DigitsOfValue(d);
    assert s == if s[0] == MINUS || s[0] == PLUS then [s[0]] + d else d;
    assert d == Zeros(k) + Digits(Value(d));
  }

  /** A string parses as a number exactly if it spells it and the number is an int64. */
  lemma ParseExactly(s: Str, i: int)
    ensures ParseInt(s) == Some(i) <==> IsInt64(i) && Spells(s, i)
  {
    hide ParseInt, Spells;
    if IsInt64(i) && Spells(s, i) {
      SpelledParses(s, i);
    }
    if ParseInt(s) == Some(i) {
      ParsedSpells(s);
    }
  }

  /** Everything else is no number. */
  lemma ParseNone(s: Str)
    ensures ParseInt(s) == None <==> forall i :: IsInt64(i) ==> !Spells(s, i)
  {
    hide ParseInt, Spells;
    forall i ensures ParseInt(s) == Some(i) <==> IsInt64(i) && Spells(s, i) {
      ParseExactly(s, i);
    }
    if ParseInt(s).Some? {
      assert ParseInt(s) == Some(ParseInt(s).value);
    }
  }

  lemma {:induction false} PadIsZeros(n: nat, w: nat)
    requires w > 0 && n < Pow10(w)
    ensures |Digits(n)| <= w && Pad(n, w) == Zeros(w - |Digits(n)|) + Digits(n)
  {
    if w == 1 {
      assert Pow10(1) == 10;
      assert Pad(n / 10, 0) == [];
    } else if n < 10 {
      assert n / 10 == 0 < Pow10(w - 1) && Digits(0) == [ZERO];
      PadIsZeros(0, w - 1);
      ZerosEnd(w - 2);
    } else {
      PadIsZeros(n / 10, w - 1);
    }
  }

  /** The key of a number: its shortest decimal with as many zeros before it as make twenty
      characters, of which the first is the sign of a negative number. */
  lemma KeyIsPadded(i: int)
    requires IsInt64(i)
    ensures i >= 0 ==> |Digits(i)| <= 20 && FormatKey(i) == Zeros(20 - |Digits(i)|) + Digits(i)
    ensures i < 0 ==> |Digits(-i)| <= 19 && FormatKey(i) == [MINUS] + (Zeros(19 - |Digits(-i)|) + Digits(-i))
  {
    hide Pow10, Pad, Zeros, Digits;
    Int64FitsKey();
    if i < 0 {
      PadIsZeros(-i, 19);
    } else {
      PadIsZeros(i, 20);
    }
  }

  /** The key of every spelling of a number is that of the number, and of nothing else. */
  lemma SpellingsOfKey(s: Str, i: int)
    requires IsInt64(i)
    ensures NumberKey(s) == Some(FormatKey(i)) <==> Spells(s, i)
  {
    hide Spells, ParseInt, FormatKey;
    ParseExactly(s, i);
    KeyRoundTrip(i);
    if ParseInt(s).Some? {
      KeyRoundTrip(ParseInt(s).value);
    }
  }

  /** "5", "05" and "+5" have one key. */
  lemma SpellingsOfFive()
    ensures NumberKey([ZERO + 5]) == NumberKey([ZERO, ZERO + 5]) == NumberKey([PLUS, ZERO + 5]) ==
            Some(Zeros(19) + [ZERO + 5])
  {
    hide NumberKey, FormatKey;
    assert Digits(5) == [ZERO + 5] && Zeros(0) == [] && Zeros(1) == [ZERO];
    assert [ZERO + 5] == Zeros(0) + Digits(5);
    assert [ZERO, ZERO + 5] == Zeros(1) + Digits(5);
    assert [PLUS, ZERO + 5] == [PLUS] + (Zeros(0) + Digits(5));
    SpellingsOfKey([ZERO + 5], 5);
    SpellingsOfKey([ZERO, ZERO + 5], 5);
    SpellingsOfKey([PLUS, ZERO + 5], 5);
    KeyIsPadded(5);
  }
}
