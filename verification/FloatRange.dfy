// The range check that canonicalNumber and validateDecodedNumbers rely on, as far as
// it concerns numbers that are far too large: strconv stops accumulating the digits
// of an exponent, so that the check depends on how a number is written. A number can
// pass where its canonical form does not.
module FloatRange {
  import opened Options
  import opened Decimals
  import opened CanonicalNumber

  /** The exponent as strconv reads it: no digit counts once it has reached 10000. */
  function Saturated(digits: string): nat
    requires IsDigits(digits)
  {
    if digits == "" then 0
    else
      var front := Saturated(digits[..|digits| - 1]);
      if front < 10000 then front * 10 + DigitValue(digits[|digits| - 1]) else front
  }

  lemma {:induction false} SaturatedBounds(digits: string)
    requires IsDigits(digits)
    ensures Saturated(digits) < 100000
    ensures Saturated(digits) < 10000 ==> Saturated(digits) == Natural(digits)
  {
    if digits != "" {
      SaturatedBounds(digits[..|digits| - 1]);
    }
  }

  /** Where strconv puts the decimal point, counted from the first significant digit. */
  function PointOf(l: Lexeme): int
    requires l.WellFormed()
  {
    var whole, fraction := TrimLeftZeros(l.whole), TrimLeftZeros(l.FractionDigits());
    var point: int := if whole != "" then |whole| else |fraction| - |l.FractionDigits()|;
    point
    + if l.exponent.None? then 0
      else if l.exponent.value.sign == "-" then -(Saturated(l.exponent.value.digits) as int)
      else Saturated(l.exponent.value.digits)
  }

  /** strconv reports a range error for a point beyond this; far to the other side it
      rounds to zero without one. */
  predicate FarTooLarge(l: Lexeme)
    requires l.WellFormed()
  {
    PointOf(l) > 310
  }

  /** A one after many zeros, and an exponent that makes it large again. */
  function Disguised(zeros: nat, digits: string): Lexeme {
    Lexeme(false, "0", Some(Zeros(zeros) + "1"), Some(Exponent('e', "", digits)))
  }

  lemma {:induction false} TrimZeros(n: nat)
    ensures TrimLeftZeros(Zeros(n) + "1") == "1"
    ensures TrimLeftZeros("0" + (Zeros(n) + "1")) == "1"
  {
    ZerosAreDigits(n);
    assert ("0" + (Zeros(n) + "1"))[1..] == Zeros(n) + "1";
    if n > 0 {
      ZerosAreDigits(n - 1);
      TrimZeros(n - 1);
      assert Zeros(n) + "1" == "0" + (Zeros(n - 1) + "1");
    }
  }

  lemma DisguisedNormal(zeros: nat, digits: string)
    requires IsDigits(digits) && digits != ""
    ensures Disguised(zeros, digits).WellFormed()
    ensures NormalOf(Disguised(zeros, digits)) == Normal(false, "1", Natural(digits) - (zeros + 1))
  {
    ZerosAreDigits(zeros);
    TrimZeros(zeros);
  }

  /** 1e and an exponent. */
  function Plain(exponent: nat): Lexeme {
    Lexeme(false, "1", None, Some(Exponent('e', "", NaturalText(exponent))))
  }

  lemma PlainIsNormal(exponent: nat)
    ensures Plain(exponent).WellFormed()
    ensures Normal(false, "1", exponent).WellFormed() && Normal(false, "1", exponent).AsLexeme() == Plain(exponent)
  {
  }

  /** The exponent left when the zeros are taken into account. */
  function Left(zeros: nat, digits: string): nat
    requires IsDigits(digits) && Natural(digits) > zeros
  {
    Natural(digits) - (zeros + 1)
  }

  lemma PlainIsCanonical(l: Lexeme, exponent: nat, guard: string -> bool)
    requires l.WellFormed() && guard(l.Text()) && NormalOf(l) == Normal(false, "1", exponent)
    ensures Plain(exponent).WellFormed() && Plain(exponent).Value() == l.Value()
    ensures Canonical(l.Text(), guard) == Some(Plain(exponent).Text())
  {
    PlainIsNormal(exponent);
    var k := CanonicalDenotesSameRational(l, guard);
  }

  lemma DisguisedPoint(zeros: nat, digits: string)
    requires IsDigits(digits) && digits != ""
    ensures Disguised(zeros, digits).WellFormed()
    ensures PointOf(Disguised(zeros, digits)) == Saturated(digits) - zeros
  {
    ZerosAreDigits(zeros);
    TrimZeros(zeros);
    assert TrimLeftZeros("0") == "" by {
      assert "0"[1..] == "";
    }
  }

  lemma PlainPoint(exponent: nat)
    ensures Plain(exponent).WellFormed()
    ensures PointOf(Plain(exponent)) == 1 + Saturated(NaturalText(exponent))
  {
    assert TrimLeftZeros("1") == "1";
  }

  /** With a hundred thousand zeros or more, and an exponent that exceeds them by more
      than ten thousand, the number passes the check and its canonical form does not,
      although they are equal. */
  lemma CheckDependsOnSpelling(zeros: nat, digits: string)
    requires IsDigits(digits) && digits != "" && zeros >= 100000 && Natural(digits) > zeros + 10000
    ensures Disguised(zeros, digits).WellFormed() && Plain(Left(zeros, digits)).WellFormed()
    ensures Disguised(zeros, digits).Value() == Plain(Left(zeros, digits)).Value()
    ensures !FarTooLarge(Disguised(zeros, digits)) && FarTooLarge(Plain(Left(zeros, digits)))
  {
    DisguisedNormal(zeros, digits);
    PlainIsCanonical(Disguised(zeros, digits), Left(zeros, digits), _ => true);
    DisguisedPoint(zeros, digits);
    SaturatedBounds(digits);
    PlainPoint(Left(zeros, digits));
    SaturatedBounds(NaturalText(Left(zeros, digits)));
  }

  lemma RefusedHasNoForm(lexeme: string, guard: string -> bool)
    requires !guard(lexeme)
    ensures Canonical(lexeme, guard) == None
  {
  }

  lemma RefusedTheSecondTime(l: Lexeme, exponent: nat, guard: string -> bool)
    requires l.WellFormed() && NormalOf(l) == Normal(false, "1", exponent) && Plain(exponent).WellFormed()
    requires guard(l.Text()) && !guard(Plain(exponent).Text())
    ensures Canonical(l.Text(), guard) == Some(Plain(exponent).Text())
    ensures Canonical(Plain(exponent).Text(), guard) == None
  {
    PlainIsCanonical(l, exponent, guard);
    RefusedHasNoForm(Plain(exponent).Text(), guard);
  }

  /** So canonicalising twice fails where canonicalising once succeeds, for a guard that
      decides these two numbers as strconv does. */
  lemma CanonicalNotIdempotent(zeros: nat, digits: string, guard: string -> bool)
    requires IsDigits(digits) && digits != "" && zeros >= 100000 && Natural(digits) > zeros + 10000
    requires Disguised(zeros, digits).WellFormed() && Plain(Left(zeros, digits)).WellFormed()
    requires guard(Disguised(zeros, digits).Text()) <==> !FarTooLarge(Disguised(zeros, digits))
    requires guard(Plain(Left(zeros, digits)).Text()) <==> !FarTooLarge(Plain(Left(zeros, digits)))
    ensures Canonical(Disguised(zeros, digits).Text(), guard) == Some(Plain(Left(zeros, digits)).Text())
    ensures Canonical(Plain(Left(zeros, digits)).Text(), guard) == None
  {
    CheckDependsOnSpelling(zeros, digits);
    DisguisedNormal(zeros, digits);
    RefusedTheSecondTime(Disguised(zeros, digits), Left(zeros, digits), guard);
  }

  /** One such number: "0.", a hundred thousand zeros, and 1e400000. */
  lemma OneDisguisedNumber() returns (zeros: nat, digits: string)
    ensures zeros == 100000 && IsDigits(digits) && digits != "" && Natural(digits) == 400000
    ensures Disguised(zeros, digits).WellFormed() && !FarTooLarge(Disguised(zeros, digits))
    ensures Plain(Left(zeros, digits)).WellFormed() && FarTooLarge(Plain(Left(zeros, digits)))
  {
    var n: nat := 100000;
    zeros, digits := n, NaturalText(4 * n);
    CheckDependsOnSpelling(zeros, digits);
  }
}
