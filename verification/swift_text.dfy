/**
 The small part of Swift's standard library the rest timer relies on, stated
 over strings as sequences of characters:
 - `String.split(separator:)` with its default of omitting empty pieces,
 - the failable initialiser `Int(_: String)` on a 64-bit `Int`,
 - string interpolation of an `Int` (`"\(n)"`),
 - `String(format: "%02d", n)`.
 */
module SwiftText {

  /** Swift's `Optional`, with `??` written as `GetOr`. */
  datatype Option<+T> = None | Some(value: T) {
    function GetOr(default: T): T {
      match this
      case Some(v) => v
      case None => default
    }
  }

  /** Swift's `Int` is 64 bits wide on the platforms the app targets. */
  const IntMin: int := -0x8000_0000_0000_0000
  const IntMax: int := 0x7FFF_FFFF_FFFF_FFFF

  predicate InIntRange(n: int) {
    IntMin <= n <= IntMax
  }

  // ---------------------------------------------------------------------
  // Decimal digits

  predicate IsDigit(c: char) {
    '0' <= c <= '9'
  }

  function DigitValue(c: char): (d: nat)
    requires IsDigit(c)
    ensures d < 10
  {
    c as int - '0' as int
  }

  function DigitChar(d: nat): (c: char)
    requires d < 10
    ensures IsDigit(c) && DigitValue(c) == d
  {
    ('0' as int + d) as char
  }

  predicate AllDigits(s: string) {
    forall i :: 0 <= i < |s| ==> IsDigit(s[i])
  }

  /** The number a non-empty run of decimal digits denotes (leading zeros allowed). */
  function DigitsValue(s: string): nat
    requires AllDigits(s)
    decreases |s|
  {
    if s == [] then 0 else 10 * DigitsValue(s[..|s| - 1]) + DigitValue(s[|s| - 1])
  }

  /** The decimal digits of `n`, most significant first, without leading zeros. */
  function ShowNat(n: nat): (r: string)
    ensures r != [] && IsDigit(r[0])
    ensures r[0] == '0' ==> n == 0
    ensures n < 10 <==> |r| == 1
    decreases n
  {
    if n < 10 then [DigitChar(n)] else ShowNat(n / 10) + [DigitChar(n % 10)]
  }

  /** `ShowNat` writes only digits, and they denote `n`. */
  lemma {:induction false} ShowNatDigits(n: nat)
    ensures AllDigits(ShowNat(n)) && DigitsValue(ShowNat(n)) == n
    decreases n
  {
    if n >= 10 {
      var prefix := ShowNat(n / 10);
      var r := ShowNat(n);
      ShowNatDigits(n / 10);
      assert r == prefix + [DigitChar(n % 10)];
      assert r[..|r| - 1] == prefix;
    }
  }

  // ---------------------------------------------------------------------
  // Formatting

  /** String interpolation of an `Int`: `"\(n)"`. */
  function ShowInt(n: int): (r: string)
    ensures r != []
    ensures r[0] == '-' <==> n < 0
  {
    if n < 0 then "-" + ShowNat(-n) else ShowNat(n)
  }

  /** A non-negative `Int` is interpolated as the digits denoting it; no interpolation contains ':'. */
  lemma ShowIntDigits(n: int)
    ensures n >= 0 ==> AllDigits(ShowInt(n)) && DigitsValue(ShowInt(n)) == n
    ensures ':' !in ShowInt(n)
  {
    ShowNatDigits(if n < 0 then -n else n);
  }

  /**
   `String(format: "%02d", n)`: the decimal form of `n`, padded on the left
   with zeros to a width of two. A negative number already has width two
   or more ("-5"), so only 0..9 get a leading zero.
   */
  function Pad2(n: int): (r: string)
    ensures |r| >= 2
  {
    if 0 <= n < 10 then "0" + ShowInt(n) else ShowInt(n)
  }

  /** "%02d" of 0..99 is exactly two digits denoting the number; no "%02d" output contains ':'. */
  lemma Pad2Digits(n: int)
    ensures 0 <= n < 100 ==> |Pad2(n)| == 2 && AllDigits(Pad2(n)) && DigitsValue(Pad2(n)) == n
    ensures ':' !in Pad2(n)
  {
    ShowIntDigits(n);
    if 0 <= n < 10 {
      var s := Pad2(n);
      assert s[..1] == "0";
      assert DigitsValue(s[..1]) == 0;
      assert s[1..] == ShowInt(n);
    } else if 10 <= n < 100 {
      assert ShowInt(n) == ShowNat(n / 10) + [DigitChar(n % 10)];
    }
  }

  // ---------------------------------------------------------------------
  // Parsing

  /**
   `Int(s)`: an optional `+` or `-` sign followed by one or more decimal
   digits and nothing else; `None` for anything else, and for a value that
   does not fit in 64 bits.
   */
  function ParseInt(s: string): (r: Option<int>)
    ensures r.Some? ==> InIntRange(r.value)
    ensures s != [] && AllDigits(s) && DigitsValue(s) <= IntMax ==> r == Some(DigitsValue(s))
    ensures s == [] || !(IsDigit(s[0]) || s[0] == '+' || s[0] == '-') ==> r == None
  {
    var signed := |s| > 0 && (s[0] == '+' || s[0] == '-');
    var digits := if signed then s[1..] else s;
    if digits == [] || !AllDigits(digits) then None
    else
      var v: int := if signed && s[0] == '-' then -(DigitsValue(digits) as int) else DigitsValue(digits);
      if InIntRange(v) then Some(v) else None
  }

  /**
   `Int(_:)` rejects a non-digit anywhere after the first character, a sign
   with no digits after it, and a digit string too large for 64 bits.
   */
  lemma ParseIntRejects(s: string)
    ensures ParseInt(s).Some? ==> forall i :: 0 < i < |s| ==> IsDigit(s[i])
    ensures |s| == 1 && !IsDigit(s[0]) ==> ParseInt(s) == None
    ensures s != [] && AllDigits(s) && DigitsValue(s) > IntMax ==> ParseInt(s) == None
  {
    if ParseInt(s).Some? {
      var signed := |s| > 0 && (s[0] == '+' || s[0] == '-');
      var digits := if signed then s[1..] else s;
      forall i | 0 < i < |s|
        ensures IsDigit(s[i])
      {
        if signed {
          assert s[i] == digits[i - 1];
        } else {
          assert s[i] == digits[i];
        }
      }
    }
  }

  /**
   `Int(_:)` on a sign followed by digits: the digits' value, negated after
   '-', when it fits in 64 bits, and nil when it does not.
   */
  lemma ParseIntSigned(s: string)
    requires |s| >= 2 && (s[0] == '+' || s[0] == '-') && AllDigits(s[1..])
    ensures s[0] == '+' ==> ParseInt(s) == (if DigitsValue(s[1..]) <= IntMax then Some(DigitsValue(s[1..]) as int) else None)
    ensures s[0] == '-' ==> ParseInt(s) == (if -(DigitsValue(s[1..]) as int) >= IntMin then Some(-(DigitsValue(s[1..]) as int)) else None)
  {
  }

  /** Interpolating an `Int` and reading it back with `Int(_:)` gives the same number. */
  lemma ShowIntRoundTrip(n: int)
    requires InIntRange(n)
    ensures ParseInt(ShowInt(n)) == Some(n)
  {
    ShowIntDigits(n);
    ShowNatDigits(if n < 0 then -n else n);
    if n < 0 {
      var s := ShowInt(n);
      assert s[1..] == ShowNat(-n);
    }
  }

  /** Formatting with "%02d" and reading back with `Int(_:)` gives the same number. */
  lemma Pad2RoundTrip(n: int)
    requires InIntRange(n)
    ensures ParseInt(Pad2(n)) == Some(n)
  {
    if 0 <= n < 10 {
      Pad2Digits(n);
    } else {
      ShowIntRoundTrip(n);
    }
  }

  // ---------------------------------------------------------------------
  // Splitting

  /** The index of the first `c` in `s`, or `|s|` when there is none. */
  function IndexOf(s: string, c: char): nat
    decreases |s|
  {
    if |s| == 0 || s[0] == c then 0 else 1 + IndexOf(s[1..], c)
  }

  lemma {:induction false} IndexOfFirst(s: string, c: char)
    ensures IndexOf(s, c) <= |s|
    ensures c !in s[..IndexOf(s, c)]
    ensures IndexOf(s, c) < |s| ==> s[IndexOf(s, c)] == c
    decreases |s|
  {
    if |s| > 0 && s[0] != c {
      IndexOfFirst(s[1..], c);
      var j := IndexOf(s[1..], c);
      assert s[..1 + j] == [s[0]] + s[1..][..j];
    }
  }

  /** The characters of `s` other than `sep`, in order. */
  function Without(s: string, sep: char): string
    decreases |s|
  {
    if |s| == 0 then []
    else (if s[0] == sep then [] else [s[0]]) + Without(s[1..], sep)
  }

  function Concat(pieces: seq<string>): string
    decreases |pieces|
  {
    if |pieces| == 0 then [] else pieces[0] + Concat(pieces[1..])
  }

  /**
   `s.split(separator: sep)`: the maximal runs of `s` that contain no
   `sep`, in order, with the empty runs omitted (Swift's default).
   */
  function Split(s: string, sep: char): (pieces: seq<string>)
    ensures forall k :: 0 <= k < |pieces| ==> pieces[k] != [] && sep !in pieces[k]
    decreases |s|
  {
    IndexOfFirst(s, sep);
    var i := IndexOf(s, sep);
    if i == |s| then
      if |s| == 0 then [] else [s]
    else
      (if i == 0 then [] else [s[..i]]) + Split(s[i + 1..], sep)
  }

  /** The pieces of a split, put back together, are `s` with every separator removed. */
  lemma {:induction false} SplitDropsOnlySeparators(s: string, sep: char)
    ensures Concat(Split(s, sep)) == Without(s, sep)
    decreases |s|
  {
    IndexOfFirst(s, sep);
    var i := IndexOf(s, sep);
    if i == |s| {
      WithoutAbsent(s, sep);
    } else {
      var rest := Split(s[i + 1..], sep);
      SplitDropsOnlySeparators(s[i + 1..], sep);
      WithoutSplitsAt(s, sep, i);
      WithoutAbsent(s[..i], sep);
      var pieces := Split(s, sep);
      if i == 0 {
        assert pieces == rest;
      } else {
        assert pieces == [s[..i]] + rest;
        assert pieces[0] == s[..i] && pieces[1..] == rest;
      }
    }
  }

  lemma {:induction false} WithoutAbsent(s: string, sep: char)
    requires sep !in s
    ensures Without(s, sep) == s
    decreases |s|
  {
    if s != [] {
      WithoutAbsent(s[1..], sep);
    }
  }

  /** Removing separators distributes over a split of `s` at a separator. */
  lemma {:induction false} WithoutSplitsAt(s: string, sep: char, i: nat)
    requires i < |s| && s[i] == sep
    ensures Without(s, sep) == Without(s[..i], sep) + Without(s[i + 1..], sep)
    decreases i
  {
    if i == 0 {
      assert s[..0] == [];
      assert Without(s[..0], sep) == [];
    } else {
      var t := s[1..];
      var head: string := if s[0] == sep then [] else [s[0]];
      WithoutSplitsAt(t, sep, i - 1);
      assert t[..i - 1] == s[..i][1..];
      assert t[i..] == s[i + 1..];
      assert s[..i][0] == s[0];
      assert Without(s[..i], sep) == head + Without(s[..i][1..], sep);
      calc {
        Without(s, sep);
        head + Without(t, sep);
        head + (Without(t[..i - 1], sep) + Without(t[i..], sep));
        (head + Without(s[..i][1..], sep)) + Without(s[i + 1..], sep);
      }
    }
  }

  /** A string with no separator is one piece, or none when it is empty. */
  lemma SplitWithoutSeparator(a: string, sep: char)
    requires sep !in a
    ensures Split(a, sep) == (if a == [] then [] else [a])
  {
    IndexOfFirst(a, sep);
    assert IndexOf(a, sep) == |a|;
  }

  /**
   A split cuts at the first separator: the run before it is the first
   piece (omitted when empty), and the rest is split on its own.
   */
  lemma SplitAtFirst(a: string, rest: string, sep: char)
    requires sep !in a
    ensures Split(a + [sep] + rest, sep) == (if a == [] then [] else [a]) + Split(rest, sep)
  {
    var s := a + [sep] + rest;
    IndexOfFirst(s, sep);
    var i := IndexOf(s, sep);
    assert s[|a|] == sep;
    assert forall k :: 0 <= k < |a| ==> s[k] == a[k];
    assert i == |a|;
    assert s[..i] == a;
    assert s[i + 1..] == rest;
  }

  /** Two non-empty separator-free pieces joined by one separator split back into those two pieces. */
  lemma SplitPair(a: string, b: string, sep: char)
    requires a != [] && b != []
    requires sep !in a && sep !in b
    ensures Split(a + [sep] + b, sep) == [a, b]
  {
    SplitAtFirst(a, b, sep);
    SplitWithoutSeparator(b, sep);
  }
}
