// Record identities of JSON numbers (canonicalIdentityNumber and the json.Number
// branch of identityString in internal/diff/diff.go): the canonical form expanded
// to plain decimal notation when that stays short, and the proof that whichever
// notation is chosen two numbers share an identity exactly when they are equal.
module IdentityNumber {
  import opened Decimals
  import opened Options
  import opened CanonicalNumber

  const MAX_EXPANDED_BYTES := 8192

  predicate IsInt64(n: int) {
    -0x8000_0000_0000_0000 <= n < 0x8000_0000_0000_0000
  }

  /** strings.ReplaceAll(s, ".", "") */
  function RemovePoints(s: string): string {
    if s == "" then "" else (if s[0] == '.' then "" else s[..1]) + RemovePoints(s[1..])
  }

  /** Plain decimal notation without the sign, or None where it would be too long. */
  function PlainDigits(digits: string, exponent: int): Option<string>
    requires digits != ""
  {
    var scale := exponent - (|digits| - 1);
    if scale >= 0 then
      if |digits| + scale > MAX_EXPANDED_BYTES then None
      else Some(digits + Zeros(scale))
    else if |digits| + scale > 0 then
      var point := |digits| + scale;
      Some(digits[..point] + "." + digits[point..])
    else
      var leadingZeros := -(|digits| + scale);
      if 2 + leadingZeros + |digits| > MAX_EXPANDED_BYTES then None
      else Some("0." + (Zeros(leadingZeros) + digits))
  }

  function Plain(negative: bool, digits: string, exponent: int): Option<string>
    requires digits != ""
  {
    var plain := PlainDigits(digits, exponent);
    if plain.Some? && negative && plain.value != "0" then
      if |plain.value| + 1 > MAX_EXPANDED_BYTES then None else Some("-" + plain.value)
    else plain
  }

  /** The expansion of a canonical text, or None where the text itself is kept. */
  function Expansion(negative: bool, digits: string, exponent: int): Option<string>
    requires digits != ""
  {
    if !IsInt64(exponent) then None
    else if exponent < -MAX_EXPANDED_BYTES || exponent > MAX_EXPANDED_BYTES then None
    else if |digits| > MAX_EXPANDED_BYTES then None
    else Plain(negative, digits, exponent)
  }

  /** strings.SplitN(body, "e", 2) */
  function SplitAtE(body: string): (string, Option<string>) {
    var mark := IndexAny(body, {'e'});
    if mark < 0 then (body, None) else (body[..mark], Some(body[mark + 1..]))
  }

  /** The identity of a canonical text other than "0"; None where it does not parse. */
  function IdentityOfCanonical(canonical: string): Option<string>
  {
    var parts := SplitAtE(Unsigned(canonical));
    var exponent := if parts.1.Some? then ParseInteger(parts.1.value) else None;
    var digits := RemovePoints(parts.0);
    if exponent.None? || digits == "" then None
    else
      var expansion := Expansion(HasMinus(canonical), digits, exponent.value);
      Some(if expansion.Some? then expansion.value else canonical)
  }

  function CanonicalIdentityNumber(lexeme: string, guard: string -> bool): Option<string>
  {
    var canonical := Canonical(lexeme, guard);
    if canonical.None? then None
    else if canonical.value == "0" then Some("0")
    else IdentityOfCanonical(canonical.value)
  }

  /** identityString of a json.Number. */
  function Identity(lexeme: string, guard: string -> bool): string
  {
    var canonical := CanonicalIdentityNumber(lexeme, guard);
    if canonical.Some? then canonical.value else lexeme
  }

  // ------------------------------------- the identity of a normal form

  function IdentityText(n: Normal): string
    requires n.WellFormed()
  {
    if n.Zero? then "0"
    else
      var expansion := Expansion(n.negative, n.digits, n.exponent);
      if expansion.Some? then expansion.value else n.Text()
  }

  lemma {:induction false} NoPoints(s: string)
    requires Free(s, {'.'})
    ensures RemovePoints(s) == s
  {
    if s != "" {
      assert Free(s[1..], {'.'});
      NoPoints(s[1..]);
      assert s == s[..1] + s[1..];
    }
  }

  lemma {:induction false} PointRemoved(front: string, back: string)
    requires Free(front, {'.'}) && Free(back, {'.'})
    ensures RemovePoints(front + ("." + back)) == front + back
  {
    var s := front + ("." + back);
    if front == "" {
      assert s[1..] == back;
      NoPoints(back);
    } else {
      assert s[1..] == front[1..] + ("." + back);
      assert Free(front[1..], {'.'});
      PointRemoved(front[1..], back);
      assert s[..1] == front[..1] && front == front[..1] + front[1..];
    }
  }

  lemma MantissaDigits(digits: string)
    requires digits != "" && IsDigits(digits)
    ensures RemovePoints(ScientificMantissa(digits)) == digits
  {
    assert forall i :: 0 <= i < |digits| ==> IsDigit(digits[i]);
    if |digits| > 1 {
      PointRemoved(digits[..1], digits[1..]);
      assert ScientificMantissa(digits) == digits[..1] + ("." + digits[1..]);
    } else {
      NoPoints(digits);
      assert ScientificMantissa(digits) == digits;
    }
  }

  lemma ScientificReads(negative: bool, digits: string, exponent: int)
    requires digits != "" && IsDigits(digits)
    ensures HasMinus(Scientific(negative, digits, exponent)) == negative
    ensures Unsigned(Scientific(negative, digits, exponent)) == ScientificMantissa(digits) + ("e" + IntegerText(exponent))
  {
    ScientificMantissaCharacters(digits);
    var body := ScientificMantissa(digits) + ("e" + IntegerText(exponent));
    assert body[0] == ScientificMantissa(digits)[0];
  }

  lemma ScientificParts(negative: bool, digits: string, exponent: int)
    requires digits != "" && IsDigits(digits)
    ensures var parts := SplitAtE(Unsigned(Scientific(negative, digits, exponent)));
      parts.1 == Some(IntegerText(exponent)) && RemovePoints(parts.0) == digits
  {
    ScientificReads(negative, digits, exponent);
    ScientificMantissaCharacters(digits);
    MarkFound(ScientificMantissa(digits), 'e', IntegerText(exponent), {'e'});
    MantissaDigits(digits);
  }

  lemma IdentityOfScientific(lexeme: string, guard: string -> bool, negative: bool, digits: string, exponent: int)
    requires digits != "" && IsDigits(digits)
    requires Canonical(lexeme, guard) == Some(Scientific(negative, digits, exponent))
    ensures CanonicalIdentityNumber(lexeme, guard)
         == Some(var e := Expansion(negative, digits, exponent); if e.Some? then e.value else Scientific(negative, digits, exponent))
  {
    ScientificReads(negative, digits, exponent);
    ScientificIsNotZero(negative, digits, exponent);
    ScientificParts(negative, digits, exponent);
  }

  lemma IdentityOfNormal(l: Lexeme, guard: string -> bool)
    requires l.WellFormed() && guard(l.Text())
    ensures CanonicalIdentityNumber(l.Text(), guard) == Some(IdentityText(NormalOf(l)))
  {
    AlgorithmNormalises(l, guard);
    var n := NormalOf(l);
    if n.Normal? {
      IdentityOfScientific(l.Text(), guard, n.negative, n.digits, n.exponent);
    }
  }

  // --------------------------------------------- expansions keep the value

  lemma TrailingZerosBranch(n: Normal) returns (k: Lexeme)
    requires n.WellFormed() && n.Normal? && n.exponent - (|n.digits| - 1) >= 0
    ensures k.WellFormed() && k.Value() == n.Value()
    ensures k.Text() == (if n.negative then "-" else "") + (n.digits + Zeros(n.exponent - (|n.digits| - 1)))
  {
    var scale := n.exponent - (|n.digits| - 1);
    ZerosAreDigits(scale);
    TrailingZerosScale(n.digits, Zeros(scale));
    ScaleSign(Natural(n.digits) as real, scale);
    var whole := n.digits + Zeros(scale);
    assert whole[0] == n.digits[0];
    k := Lexeme(n.negative, whole, None, None);
    assert whole + "" == whole;
  }

  lemma InteriorPointBranch(n: Normal) returns (k: Lexeme)
    requires n.WellFormed() && n.Normal? && 0 < n.exponent + 1 < |n.digits|
    ensures k.WellFormed() && k.Value() == n.Value()
    ensures k.Text() == (if n.negative then "-" else "") + (n.digits[..n.exponent + 1] + "." + n.digits[n.exponent + 1..])
  {
    var whole, fraction := n.digits[..n.exponent + 1], n.digits[n.exponent + 1..];
    assert whole + fraction == n.digits;
    k := Lexeme(n.negative, whole, Some(fraction), None);
    assert k.Text() == (if n.negative then "-" else "") + (whole + "." + fraction);
  }

  lemma PointAfterZero(negative: bool, zeros: string, digits: string) returns (k: Lexeme)
    requires AllZeros(zeros) && IsDigits(digits) && digits != ""
    ensures k.WellFormed()
    ensures k.Value() == Scale(Signed(negative, Natural(digits)), -(|zeros| + |digits|))
    ensures k.Text() == (if negative then "-" else "") + ("0." + (zeros + digits))
  {
    LeadingZerosIgnored(zeros, digits);
    LeadingZerosIgnored("0", zeros + digits);
    k := Lexeme(negative, "0", Some(zeros + digits), None);
    assert k.UnsignedText() == "0." + (zeros + digits);
  }

  lemma LeadingZerosBranch(n: Normal) returns (k: Lexeme)
    requires n.WellFormed() && n.Normal? && n.exponent + 1 <= 0
    ensures k.WellFormed() && k.Value() == n.Value()
    ensures k.Text() == (if n.negative then "-" else "") + ("0." + (Zeros(-(n.exponent + 1)) + n.digits))
  {
    var zeros := Zeros(-(n.exponent + 1));
    ZerosAreDigits(-(n.exponent + 1));
    k := PointAfterZero(n.negative, zeros, n.digits);
  }

  /** Whichever branch is taken, the identity is a lexeme denoting the same rational. */
  lemma IdentityTextDenotes(n: Normal) returns (k: Lexeme)
    requires n.WellFormed()
    ensures k.WellFormed() && k.Text() == IdentityText(n) && k.Value() == n.Value()
  {
    if n.Zero? || Expansion(n.negative, n.digits, n.exponent).None? {
      NormalAsLexeme(n);
      NormalAsLexemeValue(n);
      k := n.AsLexeme();
    } else {
      var scale := n.exponent - (|n.digits| - 1);
      if scale >= 0 {
        k := TrailingZerosBranch(n);
        assert n.digits[0] != '0' && (n.digits + Zeros(scale))[0] == n.digits[0];
      } else if |n.digits| + scale > 0 {
        k := InteriorPointBranch(n);
      } else {
        k := LeadingZerosBranch(n);
      }
      SignOfPlain(n, k);
    }
  }

  lemma PlainIsNotZero(digits: string, exponent: int)
    requires digits != "" && digits[0] != '0' && PlainDigits(digits, exponent).Some?
    ensures PlainDigits(digits, exponent).value != "0"
  {
    var scale := exponent - (|digits| - 1);
    if scale >= 0 {
      assert (digits + Zeros(scale))[0] == digits[0];
    } else if |digits| + scale <= 0 {
      assert |PlainDigits(digits, exponent).value| > 1;
    }
  }

  lemma SignOfPlain(n: Normal, k: Lexeme)
    requires n.WellFormed() && n.Normal?
    requires PlainDigits(n.digits, n.exponent).Some?
    requires Expansion(n.negative, n.digits, n.exponent).Some?
    requires k.Text() == (if n.negative then "-" else "") + PlainDigits(n.digits, n.exponent).value
    ensures k.Text() == Expansion(n.negative, n.digits, n.exponent).value
  {
    var plain := PlainDigits(n.digits, n.exponent).value;
    PlainIsNotZero(n.digits, n.exponent);
    if !n.negative {
      assert "" + plain == plain;
    }
  }

  // ----------------------------------------------------------- main results

  /** Two numbers that pass the guard share an identity exactly when they are equal. */
  lemma IdentityIsExact(l: Lexeme, k: Lexeme, guard: string -> bool)
    requires l.WellFormed() && guard(l.Text())
    requires k.WellFormed() && guard(k.Text())
    ensures Identity(l.Text(), guard) == Identity(k.Text(), guard) <==> l.Value() == k.Value()
  {
    IdentityOfNormal(l, guard);
    IdentityOfNormal(k, guard);
    NormalKeepsValue(l);
    NormalKeepsValue(k);
    var l' := IdentityTextDenotes(NormalOf(l));
    var k' := IdentityTextDenotes(NormalOf(k));
    if l'.Text() == k'.Text() {
      TextDeterminesValue(l', k');
    }
    if l.Value() == k.Value() {
      NormalUnique(NormalOf(l), NormalOf(k));
    }
  }

  /** An expanded identity is at most one byte over the limit, and is so only for
      a positive number with MAX_EXPANDED_BYTES digits and a point among them. */
  lemma ExpandedIdentityLength(n: Normal)
    requires n.WellFormed() && n.Normal?
    requires Expansion(n.negative, n.digits, n.exponent).Some?
    ensures |IdentityText(n)| <= MAX_EXPANDED_BYTES + 1
    ensures |IdentityText(n)| == MAX_EXPANDED_BYTES + 1 <==>
      !n.negative && |n.digits| == MAX_EXPANDED_BYTES && 0 <= n.exponent < |n.digits| - 1
  {
    var scale := n.exponent - (|n.digits| - 1);
    if scale >= 0 {
      ZerosAreDigits(scale);
    } else if |n.digits| + scale <= 0 {
      ZerosAreDigits(-(|n.digits| + scale));
    }
  }

  lemma {:induction false} AllZerosAreZeros(s: string)
    requires AllZeros(s)
    ensures s == Zeros(|s|)
  {
    if s != "" {
      AllZerosAreZeros(s[1..]);
      assert s == "0" + s[1..];
    }
  }

  /** A number in plain notation. */
  function PlainInteger(negative: bool, whole: string): Lexeme {
    Lexeme(negative, whole, None, None)
  }

  lemma PlainIntegerNormal(negative: bool, whole: string)
    requires PlainInteger(negative, whole).WellFormed() && whole != "0"
    ensures var n := NormalOf(PlainInteger(negative, whole));
      n.Normal? && n.negative == negative && n.exponent == |whole| - 1 && |n.digits| <= |whole|
      && n.digits + Zeros(|whole| - |n.digits|) == whole
  {
    var l := PlainInteger(negative, whole);
    assert l.whole + l.FractionDigits() == whole;
    assert TrimLeftZeros(whole) == whole;
    var zeros := TrimRightSplits(whole);
    AllZerosAreZeros(zeros);
  }

  lemma ExpansionOfInteger(n: Normal, whole: string)
    requires n.WellFormed() && n.Normal? && n.exponent == |whole| - 1 && |n.digits| <= |whole|
    requires n.digits + Zeros(|whole| - |n.digits|) == whole && whole != "0"
    requires |whole| + (if n.negative then 1 else 0) <= 8192
    ensures IdentityText(n) == if n.negative then "-" + whole else whole
  {
    assert PlainDigits(n.digits, n.exponent) == Some(whole);
  }

  lemma PlainIntegerText(negative: bool, whole: string)
    requires PlainInteger(negative, whole).WellFormed()
    ensures PlainInteger(negative, whole).Text() == if negative then "-" + whole else whole
  {
  }

  /** An integer in plain notation of up to 8192 bytes is its own identity. */
  lemma PlainIntegerIsItself(negative: bool, whole: string, guard: string -> bool)
    requires PlainInteger(negative, whole).WellFormed() && whole != "0"
    requires guard(PlainInteger(negative, whole).Text()) && |PlainInteger(negative, whole).Text()| <= 8192
    ensures PlainInteger(negative, whole).Text() == (if negative then "-" + whole else whole)
    ensures Identity(PlainInteger(negative, whole).Text(), guard) == PlainInteger(negative, whole).Text()
  {
    var n := NormalOf(PlainInteger(negative, whole));
    PlainIntegerText(negative, whole);
    PlainIntegerNormal(negative, whole);
    ExpansionOfInteger(n, whole);
    IdentityOfNormal(PlainInteger(negative, whole), guard);
  }

  /** A longer one is not expanded: its identity is the canonical form. */
  lemma LongIntegerKept(negative: bool, whole: string, guard: string -> bool)
    requires PlainInteger(negative, whole).WellFormed() && whole != "0" && |whole| > 8192
    requires guard(PlainInteger(negative, whole).Text())
    ensures Identity(PlainInteger(negative, whole).Text(), guard) == NormalOf(PlainInteger(negative, whole)).Text()
  {
    PlainIntegerNormal(negative, whole);
    IdentityOfNormal(PlainInteger(negative, whole), guard);
  }

  // ------------------------------------------------ numbers with a fraction

  /** A number with a point and no exponent. */
  function PlainDecimal(negative: bool, whole: string, fraction: string): Lexeme {
    Lexeme(negative, whole, Some(fraction), None)
  }

  lemma {:induction false} NoTrailingZero(s: string)
    requires s != "" && s[|s| - 1] != '0'
    ensures TrimRightZeros(s) == s
  {
  }

  lemma {:induction false} TrimLeftKeepsEnd(s: string)
    requires s != "" && s[|s| - 1] != '0'
    ensures TrimLeftZeros(s) != "" && TrimLeftZeros(s)[|TrimLeftZeros(s)| - 1] == s[|s| - 1]
  {
    if s[0] == '0' {
      TrimLeftKeepsEnd(s[1..]);
    }
  }

  lemma BelowOneNormal(negative: bool, fraction: string)
    requires PlainDecimal(negative, "0", fraction).WellFormed() && fraction[|fraction| - 1] != '0'
    ensures var n := NormalOf(PlainDecimal(negative, "0", fraction));
      n.Normal? && n.negative == negative && n.exponent == |n.digits| - 1 - |fraction| && |n.digits| <= |fraction|
      && Zeros(|fraction| - |n.digits|) + n.digits == fraction
  {
    var l := PlainDecimal(negative, "0", fraction);
    assert ("0" + fraction)[1..] == fraction;
    assert TrimLeftZeros("0" + fraction) == TrimLeftZeros(fraction);
    TrimLeftKeepsEnd(fraction);
    NoTrailingZero(TrimLeftZeros(fraction));
    var zeros := TrimLeftSplits(fraction);
    AllZerosAreZeros(zeros);
  }

  lemma AboveOneNormal(negative: bool, whole: string, fraction: string)
    requires PlainDecimal(negative, whole, fraction).WellFormed() && whole != "0" && fraction[|fraction| - 1] != '0'
    ensures NormalOf(PlainDecimal(negative, whole, fraction)) == Normal(negative, whole + fraction, |whole| - 1)
  {
    NoTrailingZero(whole + fraction);
    assert TrimLeftZeros(whole + fraction) == whole + fraction;
  }

  lemma PlainDecimalText(negative: bool, whole: string, fraction: string)
    requires PlainDecimal(negative, whole, fraction).WellFormed()
    ensures PlainDecimal(negative, whole, fraction).Text() == (if negative then "-" else "") + (whole + "." + fraction)
  {
    var l := PlainDecimal(negative, whole, fraction);
    assert l.UnsignedText() == whole + "." + fraction;
  }

  lemma DigitsBelowOne(digits: string, fraction: string)
    requires digits != "" && |digits| <= |fraction| && Zeros(|fraction| - |digits|) + digits == fraction
    requires |fraction| + 2 <= 8192
    ensures PlainDigits(digits, |digits| - 1 - |fraction|) == Some("0." + fraction)
  {
  }

  lemma DigitsAboveOne(whole: string, fraction: string)
    requires whole != "" && fraction != ""
    ensures PlainDigits(whole + fraction, |whole| - 1) == Some(whole + "." + fraction)
  {
    assert (whole + fraction)[..|whole|] == whole && (whole + fraction)[|whole|..] == fraction;
  }

  /** The normal form n reads as a plain decimal of that text. */
  predicate ReadsAs(n: Normal, negative: bool, plain: string) {
    && n.WellFormed() && n.Normal? && n.negative == negative && -8192 <= n.exponent <= 8192 && |n.digits| <= 8192
    && PlainDigits(n.digits, n.exponent) == Some(plain)
  }

  lemma BelowOneReads(n: Normal, fraction: string)
    requires n.WellFormed() && n.Normal? && n.exponent == |n.digits| - 1 - |fraction| && |n.digits| <= |fraction|
    requires Zeros(|fraction| - |n.digits|) + n.digits == fraction && |fraction| + 2 <= 8192
    ensures ReadsAs(n, n.negative, "0" + "." + fraction)
  {
    DigitsBelowOne(n.digits, fraction);
    assert "0" + "." + fraction == "0." + fraction;
  }

  lemma AboveOneReads(n: Normal, whole: string, fraction: string)
    requires n.WellFormed() && n.Normal? && n.digits == whole + fraction && n.exponent == |whole| - 1
    requires whole != "" && fraction != "" && |whole| + 1 + |fraction| <= 8192
    ensures ReadsAs(n, n.negative, whole + "." + fraction)
  {
    DigitsAboveOne(whole, fraction);
  }

  lemma DecimalReads(negative: bool, whole: string, fraction: string)
    requires PlainDecimal(negative, whole, fraction).WellFormed() && fraction[|fraction| - 1] != '0'
    requires |whole| + 1 + |fraction| <= 8192
    ensures ReadsAs(NormalOf(PlainDecimal(negative, whole, fraction)), negative, whole + "." + fraction)
  {
    if whole == "0" {
      BelowOneNormal(negative, fraction);
      BelowOneReads(NormalOf(PlainDecimal(negative, whole, fraction)), fraction);
    } else {
      AboveOneNormal(negative, whole, fraction);
      AboveOneReads(NormalOf(PlainDecimal(negative, whole, fraction)), whole, fraction);
    }
  }

  lemma DecimalExpansion(n: Normal, plain: string)
    requires n.Normal? && ReadsAs(n, n.negative, plain) && plain != "0"
    requires |plain| + (if n.negative then 1 else 0) <= 8192
    ensures IdentityText(n) == if n.negative then "-" + plain else plain
  {
  }

  /** So is a decimal fraction that ends in no zero. */
  lemma PlainDecimalIsItself(negative: bool, whole: string, fraction: string, guard: string -> bool)
    requires PlainDecimal(negative, whole, fraction).WellFormed() && fraction[|fraction| - 1] != '0'
    requires guard(PlainDecimal(negative, whole, fraction).Text()) && |PlainDecimal(negative, whole, fraction).Text()| <= 8192
    ensures PlainDecimal(negative, whole, fraction).Text() == (if negative then "-" else "") + (whole + "." + fraction)
    ensures Identity(PlainDecimal(negative, whole, fraction).Text(), guard) == PlainDecimal(negative, whole, fraction).Text()
  {
    PlainDecimalText(negative, whole, fraction);
    DecimalReads(negative, whole, fraction);
    DecimalIdentity(negative, whole + "." + fraction, PlainDecimal(negative, whole, fraction), guard);
  }

  lemma IdentityIsText(l: Lexeme, guard: string -> bool)
    requires l.WellFormed() && guard(l.Text())
    ensures Identity(l.Text(), guard) == IdentityText(NormalOf(l))
  {
    IdentityOfNormal(l, guard);
  }

  lemma DecimalIdentity(negative: bool, plain: string, l: Lexeme, guard: string -> bool)
    requires l.WellFormed() && guard(l.Text()) && l.Text() == (if negative then "-" else "") + plain && |l.Text()| <= 8192
    requires |plain| > 1 && ReadsAs(NormalOf(l), negative, plain)
    ensures Identity(l.Text(), guard) == l.Text()
  {
    IdentityIsText(l, guard);
    var n, text := NormalOf(l), l.Text();
    if negative {
      assert text == "-" + plain;
    } else {
      assert text == "" + plain == plain;
    }
    DecimalExpansion(n, plain);
  }

  /** Zero, however it is written, is "0"; what the range check refuses is left as it is. */
  lemma ZeroAndRefused(l: Lexeme, guard: string -> bool)
    requires l.WellFormed()
    ensures guard(l.Text()) && l.Value() == 0.0 ==> Identity(l.Text(), guard) == "0"
    ensures !guard(l.Text()) ==> Identity(l.Text(), guard) == l.Text()
  {
    if guard(l.Text()) && l.Value() == 0.0 {
      NormalKeepsValue(l);
      NormalUnique(NormalOf(l), Zero);
      IdentityOfNormal(l, guard);
    }
  }
}
