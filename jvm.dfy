/** The few pieces of Java's standard behaviour that the services rely on:
    32-bit int arithmetic, long division, Integer.parseInt, Integer.toString
    and String.split on a literal separator. */
module Jvm {

  import opened Wrappers

  const INT_MIN: int := -0x8000_0000
  const INT_MAX: int := 0x7FFF_FFFF

  /** A Java `int`. */
  type Int32 = x: int | -0x8000_0000 <= x <= 0x7FFF_FFFF

  /** Java's narrowing to `int` (a `(int)` cast, or the result of an `int`
      addition): keep the low 32 bits, read as two's complement. */
  function ToInt32(x: int): (r: Int32)
    ensures INT_MIN <= x <= INT_MAX ==> r == x
    ensures (x - r) % 0x1_0000_0000 == 0
  {
    var m := x % 0x1_0000_0000;
    if m <= INT_MAX then m else m - 0x1_0000_0000
  }

  /** Wrapping once at the end is the same as wrapping an intermediate
      result too: `int` arithmetic is arithmetic modulo 2^32. */
  lemma ToInt32Add(a: int, b: int)
    ensures ToInt32(ToInt32(a) + b) == ToInt32(a + b)
  {
    var m := 0x1_0000_0000;
    var q := (a % m) - ToInt32(a);
    assert q == 0 || q == m;
    var k := a / m;
    assert a == k * m + a % m;
    assert ToInt32(a) + b == (a + b) - k * m - q;
    ModShift(a + b, -k * m - q, -k - q / m);
    assert (ToInt32(a) + b) % m == (a + b) % m;
  }

  lemma ModShift(x: int, d: int, k: int)
    requires d == k * 0x1_0000_0000
    ensures (x + d) % 0x1_0000_0000 == x % 0x1_0000_0000
  {
  }

  /** Java's `long` division by 60000, which truncates toward zero. */
  function MillisToMinutes(time: int): (r: int)
    ensures time >= 0 ==> r >= 0 && r * 60000 <= time < r * 60000 + 60000
    ensures time < 0 ==> r <= 0 && r * 60000 - 60000 < time <= r * 60000
  {
    if time >= 0 then time / 60000 else -((-time) / 60000)
  }

  // ---------------------------------------------------------------------
  // Integer.toString and Integer.parseInt (ASCII digits)

  predicate IsDigit(c: char) {
    '0' <= c <= '9'
  }

  predicate AllDigits(s: string) {
    forall i :: 0 <= i < |s| ==> IsDigit(s[i])
  }

  function DigitChar(d: int): (c: char)
    requires 0 <= d <= 9
    ensures IsDigit(c) && c as int - '0' as int == d
  {
    ('0' as int + d) as char
  }

  /** The decimal value of a string of digits (leading zeros allowed). */
  function DigitsValue(s: string): nat
    requires AllDigits(s)
  {
    if s == [] then 0
    else DigitsValue(s[..|s| - 1]) * 10 + (s[|s| - 1] as int - '0' as int)
  }

  /** The shortest decimal rendering of a natural number. */
  function NatToString(n: nat): (s: string)
    ensures |s| >= 1 && AllDigits(s)
    ensures n >= 10 ==> s[0] != '0'
    decreases n
  {
    if n < 10 then [DigitChar(n)]
    else NatToString(n / 10) + [DigitChar(n % 10)]
  }

  /** Integer.toString: a leading '-' for negative values. */
  function IntToString(x: int): (s: string)
    ensures |s| >= 1 && '.' !in s
    ensures s[0] == '-' <==> x < 0
    ensures AllDigits(s[1..]) && (x >= 0 ==> AllDigits(s))
  {
    if x < 0 then "-" + NatToString(-x) else NatToString(x)
  }

  /** Integer.parseInt: an optional sign, then at least one decimal digit,
      and the value must fit in an `int`; anything else is a
      NumberFormatException, modelled as None. */
  function ParseInt(s: string): (r: Option<Int32>)
    ensures r.Some? ==> |s| >= 1 && AllDigits(s[1..]) && (IsDigit(s[0]) || s[0] == '-' || s[0] == '+')
    ensures |s| >= 1 && AllDigits(s) && DigitsValue(s) <= INT_MAX ==> r == Some(DigitsValue(s))
    ensures |s| >= 2 && s[0] == '-' && AllDigits(s[1..]) && DigitsValue(s[1..]) <= -INT_MIN
            ==> r.Some? && r.value == -(DigitsValue(s[1..]) as int)
    ensures r.Some? ==> IsDigit(s[0]) || |s| >= 2
    ensures |s| >= 1 && AllDigits(s) && DigitsValue(s) > INT_MAX ==> r.None?
    ensures |s| >= 2 && s[0] == '+' && AllDigits(s[1..]) && DigitsValue(s[1..]) <= INT_MAX
            ==> r == Some(DigitsValue(s[1..]))
    ensures |s| >= 2 && s[0] == '+' && AllDigits(s[1..]) && DigitsValue(s[1..]) > INT_MAX ==> r.None?
    ensures |s| >= 2 && s[0] == '-' && AllDigits(s[1..]) && DigitsValue(s[1..]) > -INT_MIN ==> r.None?
  {
    if |s| == 0 then None
    else
      var body := if s[0] == '-' || s[0] == '+' then s[1..] else s;
      if |body| == 0 || !AllDigits(body) then None
      else
        var v: int := if s[0] == '-' then -(DigitsValue(body) as int) else DigitsValue(body);
        if INT_MIN <= v <= INT_MAX then Some(v) else None
  }

  lemma {:induction false} DigitsValueOfNatToString(n: nat)
    ensures DigitsValue(NatToString(n)) == n
    decreases n
  {
    var s := NatToString(n);
    if n >= 10 {
      DigitsValueOfNatToString(n / 10);
      assert s[..|s| - 1] == NatToString(n / 10);
    }
  }

  /** Integer.parseInt(Integer.toString(x)) == x for every `int` x. */
  lemma ParseIntOfIntToString(x: Int32)
    ensures ParseInt(IntToString(x)) == Some(x)
  {
    var s := IntToString(x);
    if x < 0 {
      DigitsValueOfNatToString(-(x as int));
      assert s[1..] == NatToString(-(x as int));
    } else {
      DigitsValueOfNatToString(x);
      assert s[0] != '-' && s[0] != '+';
    }
  }

  // ---------------------------------------------------------------------
  // String.split on a one-character separator

  /** The separator-joined form of a non-empty list of pieces. */
  function Join(parts: seq<string>, sep: char): string
    requires |parts| >= 1
  {
    if |parts| == 1 then parts[0] else parts[0] + [sep] + Join(parts[1..], sep)
  }

  /** Every piece between separators, including empty ones. */
  function SplitAll(s: string, sep: char): (parts: seq<string>)
    ensures |parts| >= 1
    ensures forall i :: 0 <= i < |parts| ==> sep !in parts[i]
    ensures Join(parts, sep) == s
  {
    if s == [] then [""]
    else
      var rest := SplitAll(s[1..], sep);
      if s[0] == sep then
        assert Join([""] + rest, sep) == [sep] + Join(rest, sep) by {
          assert ([""] + rest)[1..] == rest;
        }
        [""] + rest
      else
        var parts := [[s[0]] + rest[0]] + rest[1..];
        assert Join(parts, sep) == [s[0]] + Join(rest, sep) by {
          if |rest| > 1 {
            assert parts[1..] == rest[1..];
          }
        }
        parts
  }

  /** Java drops trailing empty strings from the result of split. */
  function DropTrailingEmpty(parts: seq<string>): (r: seq<string>)
    ensures r <= parts
    ensures r == [] || r[|r| - 1] != ""
    ensures forall i :: |r| <= i < |parts| ==> parts[i] == ""
  {
    if parts != [] && parts[|parts| - 1] == "" then DropTrailingEmpty(parts[..|parts| - 1])
    else parts
  }

  /** String.split with a regular expression that matches exactly the one
      character `sep`: the input itself when it holds no separator,
      otherwise the pieces with trailing empty pieces removed. */
  function Split(s: string, sep: char): (parts: seq<string>)
    ensures sep !in s ==> parts == [s]
    ensures forall i :: 0 <= i < |parts| ==> sep !in parts[i]
    ensures sep in s ==>
              parts <= SplitAll(s, sep) && (parts == [] || parts[|parts| - 1] != "")
              && forall i :: |parts| <= i < |SplitAll(s, sep)| ==> SplitAll(s, sep)[i] == ""
  {
    if sep !in s then [s] else DropTrailingEmpty(SplitAll(s, sep))
  }

  lemma {:induction false} SplitAllPiece(a: string, sep: char, b: string)
    requires sep !in a
    ensures SplitAll(a + [sep] + b, sep) == [a] + SplitAll(b, sep)
    decreases |a|
  {
    if a == [] {
      assert (a + [sep] + b)[1..] == b;
    } else {
      assert (a + [sep] + b)[1..] == a[1..] + [sep] + b;
      SplitAllPiece(a[1..], sep, b);
      assert [a[0]] + a[1..] == a;
    }
  }

  lemma DropTrailingEmptyKeepsPrefix(p: seq<string>, q: seq<string>)
    requires p != [] && p[|p| - 1] != ""
    ensures p <= DropTrailingEmpty(p + q)
  {
    var r := DropTrailingEmpty(p + q);
    assert (p + q)[|p| - 1] == p[|p| - 1];
    assert |r| >= |p|;
    assert r[..|p|] == (p + q)[..|p|] == p;
  }
}
