// Exact canonical form of JSON numbers (internal/diff/diff.go): the grammar of
// section 6 of RFC 8259 with the rational each lexeme denotes, the string
// algorithm that normalises a lexeme, and the proof that two lexemes get the
// same output exactly when they denote the same rational.
module CanonicalNumber {
  import opened Decimals
  import opened Options

  // ------------------------------------------------------------- grammar

  datatype Exponent = Exponent(mark: char, sign: string, digits: string)

  /** A number of RFC 8259: [ minus ] int [ frac ] [ exp ]. */
  datatype Lexeme = Lexeme(negative: bool, whole: string, fraction: Option<string>, exponent: Option<Exponent>)
  {
    predicate WellFormed() {
      && IsDigits(whole) && whole != "" && (whole[0] == '0' ==> whole == "0")
      && (fraction.Some? ==> IsDigits(fraction.value) && fraction.value != "")
      && (exponent.Some? ==>
            && exponent.value.mark in {'e', 'E'}
            && exponent.value.sign in {"", "+", "-"}
            && IsDigits(exponent.value.digits) && exponent.value.digits != "")
    }

    function FractionDigits(): string {
      if fraction.Some? then fraction.value else ""
    }

    function Mantissa(): string {
      whole + if fraction.Some? then "." + fraction.value else ""
    }

    function ExponentText(): string {
      if exponent.Some? then [exponent.value.mark] + (exponent.value.sign + exponent.value.digits) else ""
    }

    function UnsignedText(): string {
      Mantissa() + ExponentText()
    }

    function Text(): string {
      (if negative then "-" else "") + UnsignedText()
    }

    function Power(): int
      requires WellFormed()
    {
      if exponent.None? then 0
      else if exponent.value.sign == "-" then -(Natural(exponent.value.digits) as int)
      else Natural(exponent.value.digits)
    }

    /** The exact rational the lexeme denotes. */
    function Value(): real
      requires WellFormed()
    {
      Scale(Signed(negative, Natural(whole + FractionDigits())), Power() - |FractionDigits()|)
    }
  }

  function Signed(negative: bool, n: nat): real {
    if negative then -(n as real) else n as real
  }

  // ----------------------------------------------------------- algorithm

  /** strings.IndexAny from position i on: the first position holding one of the characters. */
  function IndexFrom(s: string, chars: set<char>, i: nat): (r: int)
    requires i <= |s|
    ensures r == -1 || i <= r < |s|
    ensures r >= 0 ==> s[r] in chars
    ensures forall k :: i <= k < (if r >= 0 then r else |s|) ==> s[k] !in chars
    decreases |s| - i
  {
    if i == |s| then -1 else if s[i] in chars then i else IndexFrom(s, chars, i + 1)
  }

  function IndexAny(s: string, chars: set<char>): int {
    IndexFrom(s, chars, 0)
  }

  function ScientificMantissa(digits: string): string
    requires digits != ""
  {
    digits[..1] + if |digits| > 1 then "." + digits[1..] else ""
  }

  /** d.ddde±x, or de±x when there is a single significant digit. */
  function Scientific(negative: bool, digits: string, exponent: int): string
    requires digits != ""
  {
    (if negative then "-" else "")
    + (ScientificMantissa(digits) + ("e" + IntegerText(exponent)))
  }

  predicate HasMinus(lexeme: string) {
    lexeme != "" && lexeme[0] == '-'
  }

  function Unsigned(lexeme: string): string {
    if HasMinus(lexeme) then lexeme[1..] else lexeme
  }

  function BeforeMark(body: string): string {
    var mark := IndexAny(body, {'e', 'E'});
    if mark >= 0 then body[..mark] else body
  }

  function ExponentOf(body: string): Option<int> {
    var mark := IndexAny(body, {'e', 'E'});
    if mark >= 0 then ParseInteger(body[mark + 1..]) else Some(0)
  }

  function FractionLength(mantissa: string): nat {
    var point := IndexAny(mantissa, {'.'});
    if point >= 0 then |mantissa| - point - 1 else 0
  }

  function WithoutPoint(mantissa: string): string {
    var point := IndexAny(mantissa, {'.'});
    if point >= 0 then mantissa[..point] + mantissa[point + 1..] else mantissa
  }

  /** The end of canonicalNumber, from the parts read off the lexeme. */
  function Assemble(negative: bool, exponent: int, fractionLength: nat, joined: string): string
  {
    var significant := TrimLeftZeros(joined);
    if significant == "" then "0"
    else
      var digits := TrimRightZeros(significant);
      TrimRightKeepsNonZero(significant);
      var trailingZeros := |significant| - |digits|;
      Scientific(negative, digits, exponent - fractionLength + trailingZeros + |digits| - 1)
  }

  /** canonicalNumber; guard is strconv's float64 range check on the lexeme. */
  function Canonical(lexeme: string, guard: string -> bool): Option<string>
  {
    if !guard(lexeme) then None
    else
      var body := Unsigned(lexeme);
      var exponent := ExponentOf(body);
      if exponent.None? then None
      else
        var mantissa := BeforeMark(body);
        Some(Assemble(HasMinus(lexeme), exponent.value, FractionLength(mantissa), WithoutPoint(mantissa)))
  }

  // -------------------------------------------------------- normal forms

  /** What a lexeme is reduced to: sign, significant digits, power of the first digit. */
  datatype Normal = Zero | Normal(negative: bool, digits: string, exponent: int)
  {
    predicate WellFormed() {
      Normal? ==> IsDigits(digits) && digits != "" && digits[0] != '0' && digits[|digits| - 1] != '0'
    }

    function Text(): string
      requires WellFormed()
    {
      if Zero? then "0" else Scientific(negative, digits, exponent)
    }

    function Value(): real
      requires WellFormed()
    {
      if Zero? then 0.0 else Scale(Signed(negative, Natural(digits)), exponent - (|digits| - 1))
    }

    /** The normal form read back as a lexeme of the grammar. */
    function AsLexeme(): Lexeme
      requires WellFormed()
    {
      if Zero? then Lexeme(false, "0", None, None)
      else
        Lexeme(negative, digits[..1],
               if |digits| > 1 then Some(digits[1..]) else None,
               Some(Exponent('e', if exponent < 0 then "-" else "",
                             NaturalText(if exponent < 0 then -exponent else exponent))))
    }
  }

  function Reduce(negative: bool, exponent: int, fractionLength: nat, joined: string): (n: Normal)
    requires IsDigits(joined)
    ensures n.WellFormed()
  {
    var significant := TrimLeftZeros(joined);
    var digits := TrimRightZeros(significant);
    TrimLeftDigits(joined);
    TrimRightDigits(significant);
    if significant == "" then Zero
    else Normal(negative, digits, exponent - fractionLength + (|significant| - |digits|) + |digits| - 1)
  }

  function NormalOf(l: Lexeme): Normal
    requires l.WellFormed()
  {
    Reduce(l.negative, l.Power(), |l.FractionDigits()|, l.whole + l.FractionDigits())
  }

  lemma ReducedText(negative: bool, exponent: int, fractionLength: nat, joined: string)
    requires IsDigits(joined)
    ensures Reduce(negative, exponent, fractionLength, joined).Text()
         == Assemble(negative, exponent, fractionLength, joined)
  {
    var n := Reduce(negative, exponent, fractionLength, joined);
    var significant := TrimLeftZeros(joined);
    if significant != "" {
      TrimRightKeepsNonZero(significant);
      assert n == Normal(negative, TrimRightZeros(significant),
                         exponent - fractionLength + (|significant| - |TrimRightZeros(significant)|) + |TrimRightZeros(significant)| - 1);
    }
  }

  lemma NormalExponentText(n: Normal)
    requires n.WellFormed() && n.Normal?
    ensures n.AsLexeme().ExponentText() == "e" + IntegerText(n.exponent)
  {
    var e := n.AsLexeme().exponent.value;
    assert e.sign + e.digits == IntegerText(n.exponent);
  }

  lemma NormalMantissa(n: Normal)
    requires n.WellFormed() && n.Normal?
    ensures n.AsLexeme().Mantissa() == ScientificMantissa(n.digits)
  {
  }

  lemma NormalAsLexeme(n: Normal)
    requires n.WellFormed()
    ensures n.AsLexeme().WellFormed()
    ensures n.AsLexeme().Text() == n.Text()
  {
    if n.Normal? {
      NormalExponentText(n);
      NormalMantissa(n);
    }
  }

  lemma NormalAsLexemeValue(n: Normal)
    requires n.WellFormed()
    ensures n.AsLexeme().WellFormed() && n.AsLexeme().Value() == n.Value()
  {
    var l := n.AsLexeme();
    if n.Normal? {
      assert l.whole + l.FractionDigits() == n.digits;
      assert l.Power() == n.exponent;
    } else {
      assert "0" + "" == "0";
    }
  }

  /** Zeros around the significant digits only shift the power of ten. */
  lemma ZerosShift(s: string) returns (shift: nat)
    requires IsDigits(s)
    ensures IsDigits(TrimLeftZeros(s)) && IsDigits(TrimRightZeros(TrimLeftZeros(s)))
    ensures |TrimLeftZeros(s)| == |TrimRightZeros(TrimLeftZeros(s))| + shift
    ensures Natural(s) as real == Scale(Natural(TrimRightZeros(TrimLeftZeros(s))) as real, shift)
  {
    var significant := TrimLeftZeros(s);
    var leading := TrimLeftSplits(s);
    TrimLeftDigits(s);
    LeadingZerosIgnored(leading, significant);
    var trailing := TrimRightSplits(significant);
    TrimRightDigits(significant);
    TrailingZerosScale(TrimRightZeros(significant), trailing);
    shift := |trailing|;
  }

  lemma ShiftedValue(negative: bool, n: nat, m: nat, zeros: nat, shift: int)
    requires m as real == Scale(n as real, zeros)
    ensures Scale(Signed(negative, m), shift) == Scale(Signed(negative, n), zeros + shift)
  {
    ScaleSign(n as real, zeros);
    ScaleAdds(Signed(negative, n), zeros, shift);
  }

  lemma ReducedValue(negative: bool, exponent: int, fractionLength: nat, joined: string, zeros: nat)
    requires IsDigits(joined) && IsDigits(TrimRightZeros(TrimLeftZeros(joined)))
    requires |TrimLeftZeros(joined)| == |TrimRightZeros(TrimLeftZeros(joined))| + zeros
    ensures Reduce(negative, exponent, fractionLength, joined).Value()
         == Scale(Signed(negative, Natural(TrimRightZeros(TrimLeftZeros(joined)))), zeros + (exponent - fractionLength))
  {
    var shift := zeros + (exponent - fractionLength);
    if TrimLeftZeros(joined) == "" {
      assert TrimRightZeros(TrimLeftZeros(joined)) == "";
      ScaleSign(0.0, shift);
    }
  }

  lemma NormalKeepsValue(l: Lexeme)
    requires l.WellFormed()
    ensures NormalOf(l).Value() == l.Value()
  {
    var joined := l.whole + l.FractionDigits();
    var zeros := ZerosShift(joined);
    var digits := TrimRightZeros(TrimLeftZeros(joined));
    ShiftedValue(l.negative, Natural(digits), Natural(joined), zeros, l.Power() - |l.FractionDigits()|);
    ReducedValue(l.negative, l.Power(), |l.FractionDigits()|, joined, zeros);
  }

  // ------------------------------------------- the algorithm normalises

  predicate Free(s: string, chars: set<char>) {
    forall i :: 0 <= i < |s| ==> s[i] !in chars
  }

  /** The first mark of front + mark + back is where front ends. */
  lemma MarkFound(front: string, mark: char, back: string, chars: set<char>)
    requires Free(front, chars) && mark in chars
    ensures var s := front + ([mark] + back);
      && IndexAny(s, chars) == |front|
      && s[..|front|] == front && s[|front| + 1..] == back
  {
    var s := front + ([mark] + back);
    assert s[|front|] == mark;
  }

  lemma MarkAbsent(s: string, chars: set<char>)
    requires Free(s, chars)
    ensures IndexAny(s, chars) == -1
  {
  }

  lemma MantissaCharacters(l: Lexeme)
    requires l.WellFormed()
    ensures Free(l.Mantissa(), {'e', 'E'})
    ensures l.Mantissa()[0] != '-'
    ensures Free(l.whole, {'.'}) && Free(l.FractionDigits(), {'.'})
  {
    assert forall i :: 0 <= i < |l.whole| ==> IsDigit(l.whole[i]);
    assert forall i :: 0 <= i < |l.FractionDigits()| ==> IsDigit(l.FractionDigits()[i]);
  }

  lemma MarkedText(front: string, mark: char, back: string)
    requires Free(front, {'e', 'E'}) && mark in {'e', 'E'}
    ensures BeforeMark(front + ([mark] + back)) == front
    ensures ExponentOf(front + ([mark] + back)) == ParseInteger(back)
  {
    var text := front + ([mark] + back);
    MarkFound(front, mark, back, {'e', 'E'});
    assert text[..|front|] == front && text[|front| + 1..] == back;
  }

  lemma UnmarkedText(s: string)
    requires Free(s, {'e', 'E'})
    ensures BeforeMark(s + "") == s
    ensures ExponentOf(s + "") == Some(0)
  {
    assert s + "" == s;
    MarkAbsent(s, {'e', 'E'});
  }

  /** What stands before and after the exponent mark. */
  lemma ExponentRead(l: Lexeme)
    requires l.WellFormed()
    ensures BeforeMark(l.UnsignedText()) == l.Mantissa()
    ensures ExponentOf(l.UnsignedText()) == Some(l.Power())
  {
    MantissaCharacters(l);
    if l.exponent.Some? {
      MarkedExponentRead(l, l.Mantissa(), l.exponent.value.sign + l.exponent.value.digits);
    } else {
      UnmarkedText(l.Mantissa());
    }
  }

  lemma MarkedExponentRead(l: Lexeme, front: string, back: string)
    requires l.WellFormed() && l.exponent.Some? && Free(front, {'e', 'E'})
    requires back == l.exponent.value.sign + l.exponent.value.digits
    ensures BeforeMark(front + ([l.exponent.value.mark] + back)) == front
    ensures ExponentOf(front + ([l.exponent.value.mark] + back)) == Some(l.Power())
  {
    PowerRead(l);
    MarkedText(front, l.exponent.value.mark, back);
  }

  lemma PowerRead(l: Lexeme)
    requires l.WellFormed() && l.exponent.Some?
    ensures ParseInteger(l.exponent.value.sign + l.exponent.value.digits) == Some(l.Power())
  {
    SignedDigits(l.exponent.value.sign, l.exponent.value.digits);
  }

  lemma SignedDigits(sign: string, digits: string)
    requires sign in {"", "+", "-"} && IsDigits(digits) && digits != ""
    ensures ParseInteger(sign + digits)
         == Some(if sign == "-" then -(Natural(digits) as int) else Natural(digits))
  {
    assert IsDigit(digits[0]);
    if sign == "" {
      assert sign + digits == digits;
    } else {
      assert (sign + digits)[1..] == digits;
    }
  }

  lemma PointSplit(l: Lexeme)
    requires l.WellFormed()
    ensures FractionLength(l.Mantissa()) == |l.FractionDigits()|
    ensures WithoutPoint(l.Mantissa()) == l.whole + l.FractionDigits()
  {
    MantissaCharacters(l);
    if l.fraction.Some? {
      MarkFound(l.whole, '.', l.fraction.value, {'.'});
      assert l.Mantissa() == l.whole + (['.'] + l.fraction.value);
    } else {
      assert l.Mantissa() == l.whole == l.whole + "";
      MarkAbsent(l.whole, {'.'});
    }
  }

  lemma SignSplit(l: Lexeme)
    requires l.WellFormed()
    ensures HasMinus(l.Text()) == l.negative
    ensures Unsigned(l.Text()) == l.UnsignedText()
  {
    MantissaCharacters(l);
    assert l.UnsignedText()[0] == l.Mantissa()[0];
  }

  /** Everything the algorithm reads off a lexeme of the grammar. */
  lemma TextReads(l: Lexeme)
    requires l.WellFormed()
    ensures HasMinus(l.Text()) == l.negative
    ensures ExponentOf(Unsigned(l.Text())) == Some(l.Power())
    ensures FractionLength(BeforeMark(Unsigned(l.Text()))) == |l.FractionDigits()|
    ensures WithoutPoint(BeforeMark(Unsigned(l.Text()))) == l.whole + l.FractionDigits()
  {
    SignSplit(l);
    ExponentRead(l);
    PointSplit(l);
  }

  lemma AlgorithmOnReadings(lexeme: string, guard: string -> bool,
                            negative: bool, power: int, fractionLength: nat, joined: string)
    requires guard(lexeme)
    requires HasMinus(lexeme) == negative
    requires ExponentOf(Unsigned(lexeme)) == Some(power)
    requires FractionLength(BeforeMark(Unsigned(lexeme))) == fractionLength
    requires WithoutPoint(BeforeMark(Unsigned(lexeme))) == joined
    ensures Canonical(lexeme, guard) == Some(Assemble(negative, power, fractionLength, joined))
  {
  }

  /** What the algorithm makes of a lexeme of the grammar. */
  function Assembled(l: Lexeme): string
    requires l.WellFormed()
  {
    Assemble(l.negative, l.Power(), |l.FractionDigits()|, l.whole + l.FractionDigits())
  }

  lemma AlgorithmOnLexeme(l: Lexeme, guard: string -> bool)
    requires l.WellFormed() && guard(l.Text())
    ensures Canonical(l.Text(), guard) == Some(Assembled(l))
  {
    TextReads(l);
    var text, power, fraction, joined := l.Text(), l.Power(), |l.FractionDigits()|, l.whole + l.FractionDigits();
    AlgorithmOnReadings(text, guard, l.negative, power, fraction, joined);
  }

  lemma AssembledIsNormal(l: Lexeme)
    requires l.WellFormed()
    ensures NormalOf(l).Text() == Assembled(l)
  {
    var power, fraction, joined := l.Power(), |l.FractionDigits()|, l.whole + l.FractionDigits();
    ReducedText(l.negative, power, fraction, joined);
  }

  lemma AlgorithmNormalises(l: Lexeme, guard: string -> bool)
    requires l.WellFormed() && guard(l.Text())
    ensures Canonical(l.Text(), guard) == Some(NormalOf(l).Text())
  {
    AlgorithmOnLexeme(l, guard);
    AssembledIsNormal(l);
  }

  // ------------------------------------------------ normal forms are unique

  lemma {:induction false} ScaledNatural(n: nat, k: nat) returns (m: nat)
    ensures Scale(n as real, k) == m as real
    ensures k > 0 ==> m % 10 == 0
    decreases k
  {
    if k == 0 {
      m := n;
    } else {
      m := ScaledNatural(n * 10, k - 1);
      assert n as real * 10.0 == (n * 10) as real;
      if k == 1 {
        assert m == n * 10;
      }
    }
  }

  lemma ScaleCancels(x: real, y: real, a: int, b: int)
    requires Scale(x, a) == Scale(y, b)
    ensures Scale(x, a - b) == y
  {
    ScaleAdds(x, a, -b);
    ScaleAdds(y, b, -b);
  }

  /** n and k are determined by n times 10^k when n is not a multiple of ten. */
  lemma SignificandUnique(n: nat, m: nat, j: int, k: int)
    requires n % 10 != 0 && m % 10 != 0
    requires Scale(n as real, j) == Scale(m as real, k)
    ensures n == m && j == k
  {
    if j >= k {
      ScaleCancels(n as real, m as real, j, k);
      var _ := ScaledNatural(n, j - k);
    } else {
      ScaleCancels(m as real, n as real, k, j);
      var _ := ScaledNatural(m, k - j);
    }
  }

  lemma NormalSign(n: Normal)
    requires n.WellFormed()
    ensures n.Zero? <==> n.Value() == 0.0
    ensures n.Normal? ==> (n.negative <==> n.Value() < 0.0)
    ensures n.Normal? ==> Natural(n.digits) % 10 != 0
    ensures n.Normal? && n.negative ==> -n.Value() == Scale(Natural(n.digits) as real, n.exponent - (|n.digits| - 1))
  {
    if n.Normal? {
      NoLeadingZeroPositive(n.digits);
      ScaleSign(Natural(n.digits) as real, n.exponent - (|n.digits| - 1));
      assert IsDigit(n.digits[|n.digits| - 1]);
    }
  }

  lemma NormalUnique(m: Normal, n: Normal)
    requires m.WellFormed() && n.WellFormed()
    requires m.Value() == n.Value()
    ensures m == n
  {
    NormalSign(m);
    NormalSign(n);
    if m.Normal? {
      SignificandUnique(Natural(m.digits), Natural(n.digits),
                        m.exponent - (|m.digits| - 1), n.exponent - (|n.digits| - 1));
      NaturalInjective(m.digits, n.digits);
    }
  }

  // --------------------------------------------- texts of normal forms differ

  lemma SignRecovered(negative: bool, u: string, negative': bool, u': string)
    requires u != "" && u[0] != '-' && u' != "" && u'[0] != '-'
    requires (if negative then "-" else "") + u == (if negative' then "-" else "") + u'
    ensures negative == negative' && u == u'
  {
    var s := (if negative then "-" else "") + u;
    assert s[0] == if negative then '-' else u[0];
    assert s[0] == if negative' then '-' else u'[0];
    assert u == if negative then s[1..] else s;
  }

  lemma MarkRecovered(front: string, back: string, front': string, back': string)
    requires Free(front, {'e', 'E'}) && Free(front', {'e', 'E'})
    requires front + ("e" + back) == front' + ("e" + back')
    ensures front == front' && back == back'
  {
    MarkFound(front, 'e', back, {'e', 'E'});
    MarkFound(front', 'e', back', {'e', 'E'});
  }

  lemma DigitsRecovered(digits: string, digits': string)
    requires digits != "" && digits' != ""
    requires ScientificMantissa(digits) == ScientificMantissa(digits')
    ensures digits == digits'
  {
    var m := ScientificMantissa(digits);
    assert digits == m[..1] + if |m| > 2 then m[2..] else "";
    assert digits' == m[..1] + if |m| > 2 then m[2..] else "";
  }

  lemma ScientificMantissaCharacters(digits: string)
    requires digits != "" && IsDigits(digits)
    ensures Free(ScientificMantissa(digits), {'e', 'E'})
    ensures ScientificMantissa(digits)[0] != '-'
  {
    assert forall i :: 0 <= i < |digits| ==> IsDigit(digits[i]);
  }

  lemma ScientificInjective(negative: bool, digits: string, exponent: int, negative': bool, digits': string, exponent': int)
    requires digits != "" && IsDigits(digits) && digits' != "" && IsDigits(digits')
    requires Scientific(negative, digits, exponent) == Scientific(negative', digits', exponent')
    ensures negative == negative' && digits == digits' && exponent == exponent'
  {
    var m, m' := ScientificMantissa(digits), ScientificMantissa(digits');
    var e, e' := IntegerText(exponent), IntegerText(exponent');
    ScientificMantissaCharacters(digits);
    ScientificMantissaCharacters(digits');
    assert (m + ("e" + e))[0] == m[0] && (m' + ("e" + e'))[0] == m'[0];
    SignRecovered(negative, m + ("e" + e), negative', m' + ("e" + e'));
    MarkRecovered(m, e, m', e');
    DigitsRecovered(digits, digits');
  }

  lemma ScientificIsNotZero(negative: bool, digits: string, exponent: int)
    requires digits != ""
    ensures Scientific(negative, digits, exponent) != "0"
  {
    assert |Scientific(negative, digits, exponent)| > 1;
  }

  lemma NormalTextInjective(m: Normal, n: Normal)
    requires m.WellFormed() && n.WellFormed()
    requires m.Text() == n.Text()
    ensures m == n
  {
    if m.Normal? && n.Normal? {
      ScientificInjective(m.negative, m.digits, m.exponent, n.negative, n.digits, n.exponent);
    } else if m.Normal? {
      ScientificIsNotZero(m.negative, m.digits, m.exponent);
    }
  }

  // --------------------------------------------- what a lexeme denotes

  lemma ScaleByTen(x: real, e: int)
    ensures Scale(x, e + 1) == 10.0 * Scale(x, e)
  {
    ScaleAdds(x, e, 1);
    assert Scale(Scale(x, e), 1) == Scale(Scale(x, e) * 10.0, 0);
  }

  /** One more in the exponent is ten times the number, one less in a negative one too;
      no exponent is an exponent of zero. */
  lemma ExponentMeans(l: Lexeme, e: Exponent)
    requires l.WellFormed() && l.exponent.Some? && l.(exponent := Some(e)).WellFormed()
    requires (e.sign == "-") == (l.exponent.value.sign == "-")
    requires Natural(e.digits) == Natural(l.exponent.value.digits) + 1
    ensures e.sign != "-" ==> l.(exponent := Some(e)).Value() == 10.0 * l.Value()
    ensures e.sign == "-" ==> 10.0 * l.(exponent := Some(e)).Value() == l.Value()
    ensures Natural(l.exponent.value.digits) == 0 ==> l.Value() == l.(exponent := None).Value()
  {
    var k := l.(exponent := Some(e));
    var x := Signed(l.negative, Natural(l.whole + l.FractionDigits()));
    var shift := l.Power() - |l.FractionDigits()|;
    if e.sign == "-" {
      ScaleByTen(x, shift - 1);
    } else {
      ScaleByTen(x, shift);
    }
  }

  /** A digit moved across the point is ten times the number. */
  lemma PointMeans(l: Lexeme, digit: string, rest: string)
    requires l.WellFormed() && l.fraction == Some(digit + rest) && |digit| == 1 && rest != ""
    requires l.(whole := l.whole + digit, fraction := Some(rest)).WellFormed()
    ensures l.(whole := l.whole + digit, fraction := Some(rest)).Value() == 10.0 * l.Value()
  {
    assert l.whole + (digit + rest) == l.whole + digit + rest;
    ScaleByTen(Signed(l.negative, Natural(l.whole + (digit + rest))), l.Power() - |digit + rest|);
  }

  // ----------------------------------------------------------- main results

  /** The output is a lexeme of the grammar that denotes the same rational. */
  lemma CanonicalDenotesSameRational(l: Lexeme, guard: string -> bool) returns (k: Lexeme)
    requires l.WellFormed() && guard(l.Text())
    ensures k.WellFormed() && Canonical(l.Text(), guard) == Some(k.Text())
    ensures k.Value() == l.Value() && k == NormalOf(l).AsLexeme()
  {
    AlgorithmNormalises(l, guard);
    NormalKeepsValue(l);
    NormalAsLexeme(NormalOf(l));
    NormalAsLexemeValue(NormalOf(l));
    k := NormalOf(l).AsLexeme();
  }

  /** One non-zero digit, a fraction that ends in no zero if there are more digits, and
      always an exponent, in lower case, with no plus and no leading zero. */
  predicate Shaped(k: Lexeme) {
    && k.WellFormed() && |k.whole| == 1 && k.whole[0] != '0' && k.exponent.Some?
    && (k.fraction.Some? ==> k.fraction.value[|k.fraction.value| - 1] != '0')
    && var e := k.exponent.value;
    && e.mark == 'e' && e.sign in {"", "-"} && (e.digits[0] == '0' ==> e.digits == "0" && e.sign == "")
  }

  lemma NormalShaped(n: Normal)
    requires n.WellFormed() && n.Normal?
    ensures Shaped(n.AsLexeme())
  {
    NormalAsLexeme(n);
  }

  /** The shape of the output. */
  lemma CanonicalShape(l: Lexeme, guard: string -> bool) returns (k: Lexeme)
    requires l.WellFormed() && guard(l.Text())
    ensures Canonical(l.Text(), guard) == Some(k.Text()) && (k.Text() == "0" || Shaped(k))
  {
    k := CanonicalDenotesSameRational(l, guard);
    if NormalOf(l).Normal? {
      NormalShaped(NormalOf(l));
    } else {
      NormalAsLexeme(NormalOf(l));
    }
  }

  /** Two lexemes get the same output exactly when they denote the same rational. */
  lemma CanonicalDecidesEquality(l: Lexeme, k: Lexeme, guard: string -> bool)
    requires l.WellFormed() && guard(l.Text())
    requires k.WellFormed() && guard(k.Text())
    ensures Canonical(l.Text(), guard) == Canonical(k.Text(), guard) <==> l.Value() == k.Value()
  {
    AlgorithmNormalises(l, guard);
    AlgorithmNormalises(k, guard);
    NormalKeepsValue(l);
    NormalKeepsValue(k);
    if NormalOf(l).Text() == NormalOf(k).Text() {
      NormalTextInjective(NormalOf(l), NormalOf(k));
    }
    if l.Value() == k.Value() {
      NormalUnique(NormalOf(l), NormalOf(k));
    }
  }

  /** Canonicalising the output gives the same output exactly when the output passes
      the guard in its turn; otherwise it fails. */
  lemma CanonicalIdempotent(l: Lexeme, guard: string -> bool)
    requires l.WellFormed() && guard(l.Text())
    ensures Canonical(l.Text(), guard).Some?
    ensures var c := Canonical(l.Text(), guard);
      && (Canonical(c.value, guard) == c <==> guard(c.value))
      && (Canonical(c.value, guard).None? <==> !guard(c.value))
  {
    var k := CanonicalDenotesSameRational(l, guard);
    if guard(k.Text()) {
      CanonicalDecidesEquality(l, k, guard);
    }
  }

  /** The grammar is unambiguous: one text denotes one rational. */
  lemma TextDeterminesValue(l: Lexeme, k: Lexeme)
    requires l.WellFormed() && k.WellFormed() && l.Text() == k.Text()
    ensures l.Value() == k.Value()
  {
    CanonicalDecidesEquality(l, k, _ => true);
  }
}
