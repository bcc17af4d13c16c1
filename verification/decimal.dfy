/** Decimal rendering of natural numbers, as Rust's `{}` formats an unsigned
    integer: digits only, no sign, no leading zero except for `0` itself.
    `ParseNat` is the inverse used to state that rendering loses nothing. */
module Decimal {
  import opened Wrappers

  predicate IsDigit(c: char) {
    '0' <= c <= '9'
  }

  predicate AllDigits(s: string) {
    forall i :: 0 <= i < |s| ==> IsDigit(s[i])
  }

  function DigitValue(c: char): (d: nat)
    requires IsDigit(c)
    ensures d < 10
  {
    c as int - '0' as int
  }

  function DigitChar(d: nat): (c: char)
    requires d < 10
    ensures IsDigit(c) && DigitValue(c) == d
  {
    ('0' as int + d) as char
  }

  /** The canonical decimal text of `n`. */
  function Show(n: nat): (s: string)
    ensures |s| >= 1 && AllDigits(s)
    ensures s[0] == '0' <==> n == 0
  {
    if n < 10 then [DigitChar(n)] else Show(n / 10) + [DigitChar(n % 10)]
  }

  /** The number a digit string denotes, most significant digit first. */
  function ValueOf(s: string): nat
    requires AllDigits(s)
  {
    if |s| == 0 then 0 else ValueOf(s[..|s| - 1]) * 10 + DigitValue(s[|s| - 1])
  }

  /** Accepts exactly the canonical decimal texts: non-empty, digits only,
      and no leading zero unless the text is `0`. */
  function ParseNat(s: string): Option<nat> {
    if |s| == 0 || !AllDigits(s) || (|s| > 1 && s[0] == '0') then None
    else Some(ValueOf(s))
  }

  lemma {:induction false} ValueOfShow(n: nat)
    ensures ValueOf(Show(n)) == n
  {
    var s := Show(n);
    if n >= 10 {
      assert s[..|s| - 1] == Show(n / 10);
      ValueOfShow(n / 10);
    }
  }

  /** Rendering then parsing gives the number back. */
  lemma ParseShow(n: nat)
    ensures ParseNat(Show(n)) == Some(n)
  {
    ValueOfShow(n);
  }

  lemma {:induction false} ValueOfPositive(s: string)
    requires |s| >= 1 && AllDigits(s) && s[0] != '0'
    ensures ValueOf(s) >= 1
  {
    if |s| > 1 {
      ValueOfPositive(s[..|s| - 1]);
    }
  }

  lemma {:induction false} ShowValueOf(s: string)
    requires |s| >= 1 && AllDigits(s)
    requires |s| > 1 ==> s[0] != '0'
    ensures Show(ValueOf(s)) == s
  {
    if |s| > 1 {
      var init := s[..|s| - 1];
      var d := DigitValue(s[|s| - 1]);
      ValueOfPositive(init);
      var v := ValueOf(s);
      assert v == ValueOf(init) * 10 + d;
      assert v / 10 == ValueOf(init) && v % 10 == d;
      ShowValueOf(init);
      assert s == init + [s[|s| - 1]];
    }
  }

  /** Parsing then rendering gives the text back: `ParseNat` accepts only the
      canonical texts that `Show` produces. */
  lemma ShowParse(s: string, n: nat)
    requires ParseNat(s) == Some(n)
    ensures Show(n) == s
  {
    ShowValueOf(s);
  }

  /** Distinct numbers have distinct decimal texts. */
  lemma ShowInjective(n: nat, m: nat)
    ensures Show(n) == Show(m) ==> n == m
  {
    ValueOfShow(n);
    ValueOfShow(m);
  }
}
