/** Decimal numerals, and the splitting of a text at a delimiter. */
module Text {

  // ----- decimal numerals -----

  predicate IsDigit(c: char) {
    '0' <= c <= '9'
  }

  function DigitChar(d: nat): (c: char)
    requires d < 10
    ensures IsDigit(c) && DigitValue(c) == d
  {
    (d + 48) as char
  }

  function DigitValue(c: char): (d: nat)
    requires IsDigit(c)
    ensures d < 10
  {
    c as int - 48
  }

  predicate AllDigits(s: string) {
    forall i :: 0 <= i < |s| ==> IsDigit(s[i])
  }

  /** The numeral that `str(n)` and `JSON.stringify(n)` print for a natural number. */
  function Digits(n: nat): (s: string)
    ensures s != "" && AllDigits(s)
    ensures n > 0 ==> s[0] != '0'
  {
    if n < 10 then [DigitChar(n)] else Digits(n / 10) + [DigitChar(n % 10)]
  }

  function Decimal(n: int): (s: string)
    ensures s != "" && (s[0] == '-' || IsDigit(s[0])) && IsDigit(s[|s| - 1])
    ensures forall i :: 0 < i < |s| ==> IsDigit(s[i])
  {
    if n < 0 then "-" + Digits(-n) else Digits(n)
  }

  /** The number a numeral denotes. */
  function Value(s: string): nat
    requires AllDigits(s)
  {
    if s == "" then 0 else Value(s[..|s| - 1]) * 10 + DigitValue(s[|s| - 1])
  }

  /** The length of the longest prefix that consists of digits. */
  function DigitRun(s: string): (n: nat)
    ensures n <= |s| && AllDigits(s[..n])
    ensures n < |s| ==> !IsDigit(s[n])
  {
    if s == "" || !IsDigit(s[0]) then 0 else
      var n := 1 + DigitRun(s[1..]);
      assert s[..n] == [s[0]] + s[1..][..n - 1];
      n
  }

  lemma {:induction false} DigitsValue(n: nat)
    ensures Value(Digits(n)) == n
  {
    if n >= 10 {
      DigitsValue(n / 10);
      var s := Digits(n);
      assert s[..|s| - 1] == Digits(n / 10);
    }
  }

  lemma {:induction false} LeadingDigit(s: string)
    requires AllDigits(s) && s != "" && s[0] != '0'
    ensures Value(s) > 0
  {
    if |s| > 1 {
      LeadingDigit(s[..|s| - 1]);
    }
  }

  /** A numeral without needless leading zeros. */
  predicate IsNatural(s: string) {
    s != "" && AllDigits(s) && (|s| == 1 || s[0] != '0')
  }

  /** Of all numerals that denote a number the printed one alone has no needless leading zero. */
  lemma {:induction false} DigitsIff(s: string, n: nat)
    ensures s == Digits(n) <==> IsNatural(s) && Value(s) == n
  {
    DigitsValue(n);
    if IsNatural(s) && Value(s) == n {
      var init := s[..|s| - 1];
      if |s| == 1 {
        assert Value(init) == 0;
      } else {
        LeadingDigit(init);
        assert DigitValue(s[|s| - 1]) == n % 10 && Value(init) == n / 10;
        DigitsIff(init, n / 10);
      }
      assert s == init + [s[|s| - 1]];
    }
  }

  /** An integer literal of JSON: no plus sign, no needless zero, no negative zero. */
  predicate IsNumeral(s: string) {
    s != "" && if s[0] == '-' then IsNatural(s[1..]) && s[1..] != "0" else IsNatural(s)
  }

  function NumeralValue(s: string): int
    requires IsNumeral(s)
  {
    if s[0] == '-' then 0 - Value(s[1..]) else Value(s)
  }

  /** Every integer has one literal, and that is printed. */
  lemma {:induction false} DecimalIff(s: string, n: int)
    ensures s == Decimal(n) <==> IsNumeral(s) && NumeralValue(s) == n
  {
    hide Digits, Value;
    if s != "" && s[0] == '-' {
      assert s == "-" + s[1..];
      DigitsIff("0", 0);
      assert Value("0") == 0 by { ZeroValue(); }
      DigitsIff(s[1..], if n < 0 then -n else n);
      ValueOfZeros(s[1..]);
    } else {
      DigitsIff(s, if n < 0 then -n else n);
    }
  }

  lemma {:induction false} ZeroValue()
    ensures Value("0") == 0
  {
  }

  lemma {:induction false} ValueOfZeros(s: string)
    ensures IsNatural(s) ==> (Value(s) == 0 <==> s == "0")
  {
    if IsNatural(s) {
      ZeroValue();
      if s[0] != '0' {
        LeadingDigit(s);
      } else {
        assert s == "0";
      }
    }
  }

  lemma {:induction false} DigitsInjective(m: nat, n: nat)
    requires Digits(m) == Digits(n)
    ensures m == n
  {
    DigitsValue(m);
    DigitsValue(n);
  }

  lemma {:induction false} DigitRunStops(s: string, rest: string)
    requires AllDigits(s)
    requires rest == "" || !IsDigit(rest[0])
    ensures DigitRun(s + rest) == |s|
  {
    if s == "" {
      assert s + rest == rest;
    } else {
      assert (s + rest)[1..] == s[1..] + rest;
      DigitRunStops(s[1..], rest);
    }
  }

  // ----- splitting at a delimiter -----

  /** The text before the first character of `stops`, or all of it. */
  function Before(s: string, stops: set<char>): (r: string)
    ensures r <= s
    ensures forall c :: c in r ==> c !in stops
  {
    if s == "" || s[0] in stops then "" else [s[0]] + Before(s[1..], stops)
  }

  predicate Clean(s: string, stops: set<char>) {
    forall i :: 0 <= i < |s| ==> s[i] !in stops
  }

  lemma {:induction false} BeforeClean(s: string, rest: string, stops: set<char>)
    requires Clean(s, stops)
    requires rest == "" || rest[0] in stops
    ensures Before(s + rest, stops) == s
  {
    if s == "" {
      assert s + rest == rest;
    } else {
      assert (s + rest)[1..] == s[1..] + rest;
      BeforeClean(s[1..], rest, stops);
    }
  }

  /** Two texts free of the delimiter and followed by it are told apart by its first occurrence. */
  lemma {:induction false} SplitAtFirst(a: string, x: string, b: string, y: string, c: char)
    requires c !in a && c !in b
    requires a + [c] + x == b + [c] + y
    ensures a == b && x == y
  {
    var s, t := a + [c] + x, b + [c] + y;
    assert s[|a|] == c && t[|b|] == c;
    assert forall i :: 0 <= i < |a| ==> s[i] == a[i];
    assert forall i :: 0 <= i < |b| ==> t[i] == b[i];
    assert a == s[..|a|] && b == t[..|b|];
    assert x == s[|a| + 1..] && y == t[|b| + 1..];
  }

  /** Two texts free of the delimiter and preceded by it are told apart by its last occurrence. */
  lemma {:induction false} SplitAtLast(x: string, a: string, y: string, b: string, c: char)
    requires c !in a && c !in b
    requires x + [c] + a == y + [c] + b
    ensures a == b && x == y
  {
    var s, t := x + [c] + a, y + [c] + b;
    assert s[|x|] == c && t[|y|] == c;
    assert forall i :: |x| < i < |s| ==> s[i] == a[i - |x| - 1];
    assert forall i :: |y| < i < |t| ==> t[i] == b[i - |y| - 1];
    assert x == s[..|x|] && y == t[..|y|];
    assert a == s[|x| + 1..] && b == t[|y| + 1..];
  }

  /** What follows a common prefix is determined by the whole. */
  lemma {:induction false} CancelPrefix(p: string, x: string, y: string)
    requires p + x == p + y
    ensures x == y
  {
    assert x == (p + x)[|p|..] && y == (p + y)[|p|..];
  }
}
