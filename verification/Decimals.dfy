// Decimal digit strings, powers of ten and the exact rationals they denote.
module Decimals {
  import opened Options

  predicate IsDigit(c: char) {
    '0' <= c <= '9'
  }

  predicate IsDigits(s: string) {
    forall i :: 0 <= i < |s| ==> IsDigit(s[i])
  }

  function DigitValue(c: char): nat
    requires IsDigit(c)
  {
    c as int - '0' as int
  }

  function DigitChar(d: nat): (c: char)
    requires d < 10
    ensures IsDigit(c) && DigitValue(c) == d
  {
    ('0' as int + d) as char
  }

  /** The number a digit string spells, leading zeros allowed. */
  function Natural(s: string): nat
    requires IsDigits(s)
  {
    if s == "" then 0 else Natural(s[..|s| - 1]) * 10 + DigitValue(s[|s| - 1])
  }

  /** x times ten to the power e, for exponents of either sign. */
  function Scale(x: real, e: int): real
    decreases if e < 0 then -e else e
  {
    if e == 0 then x else if e > 0 then Scale(x * 10.0, e - 1) else Scale(x / 10.0, e + 1)
  }

  lemma {:induction false} ScaleAdds(x: real, a: int, b: int)
    ensures Scale(Scale(x, a), b) == Scale(x, a + b)
    decreases if a < 0 then -a else a
  {
    if a > 0 {
      ScaleAdds(x * 10.0, a - 1, b);
      ScaleStep(x, a + b - 1);
    } else if a < 0 {
      ScaleAdds(x / 10.0, a + 1, b);
      ScaleStep(x / 10.0, a + b);
    }
  }

  lemma ScaleStep(x: real, e: int)
    ensures Scale(x * 10.0, e) == Scale(x, e + 1)
  {
    assert e < 0 ==> Scale(x * 10.0, e) == Scale(x * 10.0 / 10.0, e + 1);
  }

  lemma {:induction false} ScaleSign(x: real, e: int)
    ensures Scale(-x, e) == -Scale(x, e)
    ensures x > 0.0 ==> Scale(x, e) > 0.0
    ensures x == 0.0 ==> Scale(x, e) == 0.0
    decreases if e < 0 then -e else e
  {
    if e > 0 {
      ScaleSign(x * 10.0, e - 1);
      assert -x * 10.0 == -(x * 10.0);
    } else if e < 0 {
      ScaleSign(x / 10.0, e + 1);
      assert -x / 10.0 == -(x / 10.0);
    }
  }

  function Zeros(n: nat): string {
    if n == 0 then "" else Zeros(n - 1) + "0"
  }

  lemma {:induction false} ZerosAreDigits(n: nat)
    ensures |Zeros(n)| == n
    ensures forall i :: 0 <= i < n ==> Zeros(n)[i] == '0'
    ensures IsDigits(Zeros(n))
  {
    if n > 0 {
      ZerosAreDigits(n - 1);
    }
  }

  /** strings.TrimLeft(s, "0") */
  function TrimLeftZeros(s: string): (t: string)
    ensures t == "" || t[0] != '0'
  {
    if s != "" && s[0] == '0' then TrimLeftZeros(s[1..]) else s
  }

  /** strings.TrimRight(s, "0") */
  function TrimRightZeros(s: string): (t: string)
    ensures t == "" || t[|t| - 1] != '0'
  {
    if s != "" && s[|s| - 1] == '0' then TrimRightZeros(s[..|s| - 1]) else s
  }

  lemma {:induction false} TrimLeftSplits(s: string) returns (zeros: string)
    ensures AllZeros(zeros) && s == zeros + TrimLeftZeros(s)
  {
    if s != "" && s[0] == '0' {
      var rest := TrimLeftSplits(s[1..]);
      zeros := "0" + rest;
      assert s == "0" + s[1..];
    } else {
      zeros := "";
    }
  }

  lemma {:induction false} TrimRightSplits(s: string) returns (zeros: string)
    ensures AllZeros(zeros) && s == TrimRightZeros(s) + zeros
  {
    if s != "" && s[|s| - 1] == '0' {
      var rest := TrimRightSplits(s[..|s| - 1]);
      zeros := rest + "0";
      assert s == s[..|s| - 1] + "0";
    } else {
      zeros := "";
    }
  }

  lemma {:induction false} TrimLeftDigits(s: string)
    requires IsDigits(s)
    ensures IsDigits(TrimLeftZeros(s))
  {
    if s != "" && s[0] == '0' {
      TrimLeftDigits(s[1..]);
    }
  }

  lemma {:induction false} TrimRightDigits(s: string)
    requires IsDigits(s)
    ensures IsDigits(TrimRightZeros(s))
    ensures s != "" && s[0] != '0' ==> TrimRightZeros(s) != "" && TrimRightZeros(s)[0] == s[0]
  {
    if s != "" && s[|s| - 1] == '0' {
      TrimRightDigits(s[..|s| - 1]);
    }
  }

  lemma {:induction false} TrimRightKeepsNonZero(s: string)
    requires s != "" && s[0] != '0'
    ensures TrimRightZeros(s) != ""
  {
    if s[|s| - 1] == '0' {
      TrimRightKeepsNonZero(s[..|s| - 1]);
    }
  }

  predicate AllZeros(s: string) {
    forall i :: 0 <= i < |s| ==> s[i] == '0'
  }

  lemma {:induction false} LeadingZerosIgnored(zeros: string, s: string)
    requires AllZeros(zeros) && IsDigits(s)
    ensures IsDigits(zeros + s) && Natural(zeros + s) == Natural(s)
    decreases |zeros| + |s|
  {
    assert IsDigits(zeros + s);
    if s != "" {
      assert (zeros + s)[..|zeros + s| - 1] == zeros + s[..|s| - 1];
      LeadingZerosIgnored(zeros, s[..|s| - 1]);
    } else if zeros != "" {
      assert (zeros + s)[..|zeros + s| - 1] == zeros[..|zeros| - 1] + s;
      LeadingZerosIgnored(zeros[..|zeros| - 1], s);
    }
  }

  lemma {:induction false} TrailingZerosScale(s: string, zeros: string)
    requires IsDigits(s) && AllZeros(zeros)
    ensures IsDigits(s + zeros)
    ensures Natural(s + zeros) as real == Scale(Natural(s) as real, |zeros|)
    decreases |zeros|
  {
    assert IsDigits(s + zeros);
    if zeros == "" {
      assert s + zeros == s;
    } else {
      TrailingZerosScale(s + "0", zeros[1..]);
      assert (s + "0") + zeros[1..] == s + zeros;
      assert (s + "0")[..|s|] == s;
    }
  }

  /** A digit string with no leading zero spells a positive number. */
  lemma {:induction false} NoLeadingZeroPositive(s: string)
    requires IsDigits(s) && s != "" && s[0] != '0'
    ensures Natural(s) > 0
    decreases |s|
  {
    if |s| > 1 {
      NoLeadingZeroPositive(s[..|s| - 1]);
    }
  }

  /** Digit strings without leading zeros spell different numbers. */
  lemma {:induction false} NaturalInjective(s: string, t: string)
    requires IsDigits(s) && IsDigits(t)
    requires s != "" ==> s[0] != '0'
    requires t != "" ==> t[0] != '0'
    requires Natural(s) == Natural(t)
    ensures s == t
    decreases |s|
  {
    if s == "" {
      if t != "" {
        NoLeadingZeroPositive(t);
      }
    } else {
      NoLeadingZeroPositive(s);
      var s', t' := s[..|s| - 1], t[..|t| - 1];
      assert Natural(s') == Natural(s) / 10 && Natural(t') == Natural(t) / 10;
      NaturalInjective(s', t');
      assert s == s' + [s[|s| - 1]] && t == t' + [t[|t| - 1]];
    }
  }

  /** Minimal decimal form of a natural number, as math/big prints it. */
  function NaturalText(n: nat): (s: string)
    ensures IsDigits(s) && s != "" && Natural(s) == n
    ensures s[0] == '0' ==> n == 0 && s == "0"
  {
    if n < 10 then [DigitChar(n)]
    else
      var front := NaturalText(n / 10);
      var s := front + [DigitChar(n % 10)];
      assert s[..|s| - 1] == front;
      s
  }

  /** big.Int.SetString in base ten: an optional sign, then digits. */
  function ParseInteger(s: string): (r: Option<int>)
  {
    var signed := s != "" && (s[0] == '+' || s[0] == '-');
    var digits := if signed then s[1..] else s;
    if digits == "" || !IsDigits(digits) then None
    else
      var n: int := Natural(digits);
      Some(if s[0] == '-' then -n else n)
  }

  /** big.Int.String: a minus sign when negative, then the minimal digits. */
  function IntegerText(n: int): (s: string)
    ensures ParseInteger(s) == Some(n)
  {
    if n < 0 then "-" + NaturalText(-n) else NaturalText(n)
  }

  /** Its digits spell the number, and the sign is a minus or nothing. */
  lemma IntegerTextSpells(n: int)
    ensures n >= 0 ==> IsDigits(IntegerText(n)) && Natural(IntegerText(n)) == n
    ensures n < 0 ==>
      var s := IntegerText(n);
      s != "" && s[0] == '-' && IsDigits(s[1..]) && Natural(s[1..]) == -n
  {
    if n < 0 {
      assert IntegerText(n)[1..] == NaturalText(-n);
    }
  }
}
