/** Decimal digit strings: the value of an ASCII digit string and the canonical
    rendering of a natural number. Shared by the integer settings and the IPv4 parser. */
module Decimal {

  predicate IsDigit(ch: char) {
    '0' <= ch <= '9'
  }

  predicate AllDigits(s: string) {
    forall i :: 0 <= i < |s| ==> IsDigit(s[i])
  }

  function DigitValue(ch: char): (d: nat)
    requires IsDigit(ch)
    ensures d < 10
  {
    (ch - '0') as nat
  }

  function DigitChar(d: nat): (ch: char)
    requires d < 10
    ensures IsDigit(ch) && DigitValue(ch) == d
  {
    ('0' as int + d) as char
  }

  /** The number a string of ASCII digits denotes (leading zeros allowed, as in `int("007")`). */
  function Value(s: string): nat
    requires AllDigits(s)
  {
    if s == [] then 0 else Value(s[..|s| - 1]) * 10 + DigitValue(s[|s| - 1])
  }

  /** The shortest decimal rendering of `n`, as Python's `str(n)` writes it. */
  function Render(n: nat): (s: string)
    ensures 1 <= |s| && AllDigits(s)
    ensures |s| > 1 ==> s[0] != '0'
    ensures n < 10 ==> |s| == 1
    ensures n < 100 ==> |s| <= 2
    ensures n < 1000 ==> |s| <= 3
  {
    if n < 10 then [DigitChar(n)] else Render(n / 10) + [DigitChar(n % 10)]
  }

  /** Reading back a rendering gives the number that was rendered. */
  lemma {:induction false} ValueOfRender(n: nat)
    ensures Value(Render(n)) == n
  {
    var s := Render(n);
    if n >= 10 {
      ValueOfRender(n / 10);
      assert s[..|s| - 1] == Render(n / 10);
    }
  }

  /** The other direction: a digit string without a leading zero is the rendering of
      its value, so canonical digit strings and naturals correspond one to one. */
  lemma {:induction false} RenderOfValue(s: string)
    requires AllDigits(s) && s != []
    requires |s| > 1 ==> s[0] != '0'
    ensures Render(Value(s)) == s
  {
    if |s| > 1 {
      var init := s[..|s| - 1];
      RenderOfValue(init);
      ValueIsPositive(init);
      assert Value(s) / 10 == Value(init);
    }
  }

  /** A digit string that does not start with '0' denotes a positive number. */
  lemma {:induction false} ValueIsPositive(s: string)
    requires AllDigits(s) && s != [] && s[0] != '0'
    ensures Value(s) > 0
  {
    if |s| > 1 {
      ValueIsPositive(s[..|s| - 1]);
    }
  }
}
