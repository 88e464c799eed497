/** Base-10 rendering of unsigned integers (what `BigNumber.toString()`
    produces) and the parser that reads such a string back. */
module Decimal {
  import opened Wrappers

  predicate IsDigit(c: char) {
    '0' <= c <= '9'
  }

  predicate AllDigits(s: string) {
    forall i :: 0 <= i < |s| ==> IsDigit(s[i])
  }

  /** The shape `toString()` gives a natural: a non-empty run of digits with
      no leading zero, except for the single digit "0". */
  predicate IsCanonical(s: string) {
    |s| > 0 && AllDigits(s) && (s[0] == '0' ==> |s| == 1)
  }

  function DigitValue(c: char): (d: nat)
    requires IsDigit(c)
    ensures d < 10
  {
    c as int - '0' as int
  }

  function DigitChar(d: nat): (c: char)
    requires d < 10
    ensures IsDigit(c) && DigitValue(c) == d
  {
    ('0' as int + d) as char
  }

  /** The decimal rendering of `n`, most significant digit first. */
  function ToDecimal(n: nat): (s: string)
    ensures IsCanonical(s)
    ensures s == "0" <==> n == 0
    decreases n
  {
    if n < 10 then [DigitChar(n)] else ToDecimal(n / 10) + [DigitChar(n % 10)]
  }

  /** The number a run of digits denotes. */
  function ValueOf(s: string): nat
    requires AllDigits(s)
    decreases |s|
  {
    if s == [] then 0 else ValueOf(s[..|s| - 1]) * 10 + DigitValue(s[|s| - 1])
  }

  /** Reads a decimal string back; anything but a non-empty run of digits is
      rejected. Leading zeros are accepted, as `BigNumber.from` accepts them. */
  function Parse(s: string): (r: Option<nat>)
    ensures r.Some? <==> |s| > 0 && AllDigits(s)
  {
    if |s| > 0 && AllDigits(s) then Some(ValueOf(s)) else None
  }

  /** Parsing a rendered natural gives the natural back. */
  lemma {:induction false} ParseToDecimal(n: nat)
    ensures Parse(ToDecimal(n)) == Some(n)
    decreases n
  {
    var s := ToDecimal(n);
    if n >= 10 {
      ParseToDecimal(n / 10);
      assert s[..|s| - 1] == ToDecimal(n / 10);
    } else {
      assert s == [DigitChar(n)];
      assert s[..|s| - 1] == [];
      assert ValueOf(s) == DigitValue(s[0]);
    }
  }

  /** Rendering the value of a canonical string gives the string back, so
      canonical strings and naturals are in one-to-one correspondence. */
  lemma {:induction false} ToDecimalValueOf(s: string)
    requires IsCanonical(s)
    ensures ToDecimal(ValueOf(s)) == s
    decreases |s|
  {
    var p := s[..|s| - 1];
    var d := DigitValue(s[|s| - 1]);
    if |s| == 1 {
      assert p == [];
      assert DigitChar(d) == s[0];
    } else {
      assert IsCanonical(p) by {
        assert p[0] == s[0];
      }
      ToDecimalValueOf(p);
      assert p != "0" by {
        assert p[0] == s[0];
      }
      var v := ValueOf(s);
      assert v == ValueOf(p) * 10 + d;
      assert v / 10 == ValueOf(p) && v % 10 == d;
      assert DigitChar(d) == s[|s| - 1];
      assert s == p + [s[|s| - 1]];
    }
  }

  /** Distinct naturals have distinct renderings: no information is lost. */
  lemma ToDecimalInjective(a: nat, b: nat)
    ensures ToDecimal(a) == ToDecimal(b) <==> a == b
  {
    ParseToDecimal(a);
    ParseToDecimal(b);
  }

  function Pow10(k: nat): (p: nat)
    ensures p >= 1
  {
    if k == 0 then 1 else 10 * Pow10(k - 1)
  }

  lemma {:induction false} Pow10Add(a: nat, b: nat)
    ensures Pow10(a + b) == Pow10(a) * Pow10(b)
    decreases a
  {
    if a > 0 {
      Pow10Add(a - 1, b);
    }
  }

  /** Ten to the `k` renders as a one followed by `k` zeros. */
  lemma {:induction false} ToDecimalPow10(k: nat)
    ensures ToDecimal(Pow10(k)) == ['1'] + seq(k, _ => '0')
    decreases k
  {
    if k > 0 {
      ToDecimalPow10(k - 1);
      assert Pow10(k) / 10 == Pow10(k - 1) && Pow10(k) % 10 == 0;
      assert ['1'] + seq(k, _ => '0') == ['1'] + seq(k - 1, _ => '0') + ['0'];
    }
  }

  /** One ether in wei, 10^18, renders as a one followed by eighteen zeros. */
  lemma ToDecimalOneEther()
    ensures ToDecimal(1000000000000000000) == "1000000000000000000"
  {
    assert Pow10(3) == 1000;
    Pow10Add(3, 3);
    Pow10Add(6, 6);
    Pow10Add(12, 6);
    ToDecimalPow10(18);
    assert ['1'] + seq(18, _ => '0') == "1000000000000000000";
  }
}
