/** Decimal text of integers: `std::to_string` and `std::stoi`. */
module Decimal {
  import opened Options

  predicate IsDigit(c: char) { '0' <= c <= '9' }

  predicate AllDigits(s: string) { forall i :: 0 <= i < |s| ==> IsDigit(s[i]) }

  function Digit(d: nat): char
    requires d < 10
  {
    '0' + d as char
  }

  function Digits(n: nat): (s: string)
    ensures s != [] && AllDigits(s)
  {
    if n < 10 then [Digit(n)] else Digits(n / 10) + [Digit(n % 10)]
  }

  function ToText(n: int): string { if n < 0 then "-" + Digits(-n) else Digits(n) }

  function Value(s: string): nat
    requires AllDigits(s)
  {
    if s == [] then 0 else 10 * Value(s[..|s| - 1]) + (s[|s| - 1] - '0') as nat
  }

  lemma {:induction false} ValueOfDigits(n: nat)
    ensures Value(Digits(n)) == n
  {
    if n >= 10 {
      ValueOfDigits(n / 10);
      assert Digits(n)[..|Digits(n)| - 1] == Digits(n / 10);
    }
  }

  /** The digits at the front. */
  function Leading(s: string): (r: string)
    ensures AllDigits(r) && r <= s
  {
    if s == [] || !IsDigit(s[0]) then [] else [s[0]] + Leading(s[1..])
  }

  lemma {:induction false} LeadingOfDigits(s: string)
    requires AllDigits(s)
    ensures Leading(s) == s
  {
    if s != [] {
      LeadingOfDigits(s[1..]);
    }
  }

  predicate IsSpace(c: char) { c == ' ' || '\t' <= c <= '\r' }

  function SkipSpace(s: string): string {
    if s != [] && IsSpace(s[0]) then SkipSpace(s[1..]) else s
  }

  /** `stoi`: white space, an optional sign and the digits behind it; what follows them is ignored, and no
      digit or a value outside `int` is an exception. */
  function ParseInt(text: string): Option<int> {
    var s := SkipSpace(text);
    var signed := s != [] && (s[0] == '-' || s[0] == '+');
    var digits := Leading(if signed then s[1..] else s);
    var n: int := if signed && s[0] == '-' then -(Value(digits) as int) else Value(digits) as int;
    if digits == [] || n < -0x8000_0000 || n > 0x7FFF_FFFF then None else Some(n)
  }

  /** Reading back a 32-bit integer's text gives the integer. */
  lemma ParseOfText(n: int)
    requires -0x8000_0000 <= n <= 0x7FFF_FFFF
    ensures ParseInt(ToText(n)) == Some(n)
  {
    hide Value, Digits, Leading;
    var m: nat := if n < 0 then -n else n;
    ValueOfDigits(m);
    LeadingOfDigits(Digits(m));
    assert IsDigit(Digits(m)[0]);
    if n < 0 {
      assert ToText(n)[1..] == Digits(m);
    }
  }

  lemma TextCharacters(n: int)
    ensures ToText(n) != [] && forall c :: c in ToText(n) ==> IsDigit(c) || c == '-'
  {
  }

  /** Different integers have different texts. */
  lemma TextIsInjective(m: int, n: int)
    requires ToText(m) == ToText(n)
    ensures m == n
  {
    var a: nat, b: nat := if m < 0 then -m else m, if n < 0 then -n else n;
    ValueOfDigits(a);
    ValueOfDigits(b);
    assert IsDigit(Digits(a)[0]) && IsDigit(Digits(b)[0]);
    if m < 0 {
      assert ToText(m)[0] == '-' && ToText(m)[1..] == Digits(a);
    }
    if n < 0 {
      assert ToText(n)[0] == '-' && ToText(n)[1..] == Digits(b);
    }
  }

  function Power10(n: nat): nat { if n == 0 then 1 else 10 * Power10(n - 1) }

  /** The digits in front weigh more, by ten for every digit behind them. */
  lemma {:induction false} ValueIsPositional(a: string, b: string)
    requires AllDigits(a) && AllDigits(b)
    ensures AllDigits(a + b) && Value(a + b) == Value(a) * Power10(|b|) + Value(b)
    decreases |b|
  {
    hide Value;
    if b == [] {
      assert a + b == a;
      ValueOfNothing();
    } else {
      var n := |b| - 1;
      ValueIsPositional(a, b[..n]);
      assert b == b[..n] + [b[n]] && a + b == a + b[..n] + [b[n]];
      ValueOfMore(b[..n], b[n]);
      ValueOfMore(a + b[..n], b[n]);
      TimesTen(Value(a), Power10(n));
    }
  }

  lemma TimesTen(a: nat, b: nat)
    ensures a * (10 * b) == 10 * (a * b)
  {
  }

  lemma ValueOfNothing()
    ensures Value([]) == 0
  {
  }

  lemma ValueOfMore(s: string, c: char)
    requires AllDigits(s) && IsDigit(c)
    ensures AllDigits(s + [c]) && Value(s + [c]) == 10 * Value(s) + (c - '0') as nat
  {
    assert (s + [c])[..|s + [c]| - 1] == s;
  }

  /** No text of more than one digit starts with a zero. */
  lemma {:induction false} NoLeadingZero(n: nat)
    ensures |Digits(n)| > 1 ==> Digits(n)[0] != '0'
  {
    if n >= 10 {
      NoLeadingZero(n / 10);
      if n / 10 < 10 {
        assert Digits(n / 10)[0] == Digit(n / 10);
      }
    }
  }

  lemma SampleTexts()
    ensures ToText(0) == "0" && ToText(8000) == "8000" && ToText(-120) == "-120"
  {
    assert Digits(8000) == Digits(800) + "0" && Digits(800) == Digits(80) + "0" && Digits(80) == Digits(8) + "0";
    assert Digits(120) == Digits(12) + "0" && Digits(12) == Digits(1) + "2";
  }

  lemma {:induction false} LeadingStops(d: string, rest: string)
    requires AllDigits(d) && (rest == "" || !IsDigit(rest[0]))
    ensures Leading(d + rest) == d
    decreases |d|
  {
    if d != [] {
      assert (d + rest)[1..] == d[1..] + rest;
      LeadingStops(d[1..], rest);
    } else {
      assert d + rest == rest;
    }
  }

  lemma {:induction false} SkipSpaces(w: string, s: string)
    requires (forall i :: 0 <= i < |w| ==> IsSpace(w[i])) && (s == "" || !IsSpace(s[0]))
    ensures SkipSpace(w + s) == s
    decreases |w|
  {
    if w == [] {
      assert w + s == s;
    } else {
      assert (w + s)[1..] == w[1..] + s;
      SkipSpaces(w[1..], s);
    }
  }

  /** `stoi` on a text of white space, a sign or none, digits, and something else: the number, unless it does not
      fit 32 bits; and without a digit behind the sign, an exception. */
  lemma ParseOfPieces(w: string, sign: string, d: string, rest: string)
    requires (forall i :: 0 <= i < |w| ==> IsSpace(w[i])) && sign in {"", "+", "-"} && AllDigits(d)
    requires rest == "" || !IsDigit(rest[0])
    requires d == "" ==> rest == "" || (!IsSpace(rest[0]) && (sign == "" ==> rest[0] != '+' && rest[0] != '-'))
    ensures var n: int := if sign == "-" then -(Value(d) as int) else Value(d) as int;
      ParseInt(w + sign + d + rest) == if d != "" && -2147483648 <= n <= 2147483647 then Some(n) else None
  {
    hide Value, Leading, SkipSpace;
    var s := sign + d + rest;
    assert w + sign + d + rest == w + s;
    SkipSpaces(w, s);
    LeadingStops(d, rest);
    if sign == "" {
      assert s == d + rest;
    } else {
      assert s[0] == sign[0] && s[1..] == d + rest;
    }
  }
}
