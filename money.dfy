/**
 * Exact money arithmetic of the bot: amounts are integer cents; a decimal text is
 * read as Python's Decimal reads it and rounded half-up (ties away from zero) to
 * the cent; the fee is the total times a decimal rate, rounded the same way.
 */
module Money {
  import opened Wrappers
  import opened Text

  type Positive = n: int | n > 0 witness 1

  // ---------------------------------------------------------------------------
  // Rounding half-up
  // ---------------------------------------------------------------------------

  /**
   * n is num/den rounded to the nearest integer, halves rounded away from zero
   * (Decimal's ROUND_HALF_UP): n - 1/2 <= num/den < n + 1/2 for non-negative
   * values, n - 1/2 < num/den <= n + 1/2 for negative ones.
   */
  predicate IsHalfUpRounding(num: int, den: Positive, n: int) {
    if num >= 0 then (2 * n - 1) * den <= 2 * num < (2 * n + 1) * den
    else (2 * n - 1) * den < 2 * num <= (2 * n + 1) * den
  }

  function RoundHalfUp(num: int, den: Positive): int {
    if num >= 0 then (2 * num + den) / (2 * den)
    else -((-2 * num + den) / (2 * den))
  }

  /** RoundHalfUp meets the half-up specification. */
  lemma RoundHalfUpCorrect(num: int, den: Positive)
    ensures IsHalfUpRounding(num, den, RoundHalfUp(num, den))
  {
    if num >= 0 {
      var q := (2 * num + den) / (2 * den);
      assert 2 * num + den == q * (2 * den) + (2 * num + den) % (2 * den);
    } else {
      var q := (-2 * num + den) / (2 * den);
      assert -2 * num + den == q * (2 * den) + (-2 * num + den) % (2 * den);
    }
  }

  lemma MulMonotone(x: int, y: int, d: Positive)
    ensures x <= y <==> x * d <= y * d
  {
    assert y * d - x * d == (y - x) * d;
    if x <= y {
      assert (y - x) * d >= 0;
    } else {
      assert (x - y) * d > 0;
    }
  }

  /** At most one integer is num/den rounded half-up. */
  lemma HalfUpUnique(num: int, den: Positive, a: int, b: int)
    requires IsHalfUpRounding(num, den, a) && IsHalfUpRounding(num, den, b)
    ensures a == b
  {
    if a < b {
      MulMonotone(2 * a + 1, 2 * b - 1, den);
    } else if b < a {
      MulMonotone(2 * b + 1, 2 * a - 1, den);
    }
  }

  /** A value that is already whole is its own rounding. */
  lemma HalfUpWhole(k: int, den: Positive)
    ensures RoundHalfUp(k * den, den) == k
  {
    assert IsHalfUpRounding(k * den, den, k) by {
      assert (2 * k - 1) * den == 2 * (k * den) - den;
      assert (2 * k + 1) * den == 2 * (k * den) + den;
    }
    RoundHalfUpCorrect(k * den, den);
    HalfUpUnique(k * den, den, k, RoundHalfUp(k * den, den));
  }

  /** The rounding is negative exactly when num/den lies at or below -1/2. */
  lemma HalfUpNegative(num: int, den: Positive, n: int)
    requires IsHalfUpRounding(num, den, n)
    ensures n < 0 <==> 2 * num <= -(den as int)
  {
    if num >= 0 {
      MulMonotone(-1, 2 * n + 1, den);
    } else if n < 0 {
      MulMonotone(2 * n + 1, -1, den);
    } else {
      MulMonotone(-1, 2 * n - 1, den);
    }
  }

  // ---------------------------------------------------------------------------
  // Decimal texts
  // ---------------------------------------------------------------------------

  /** A finite Decimal: the value is -coefficient/10^scale when negative, +coefficient/10^scale otherwise. */
  datatype Decimal = Decimal(negative: bool, coefficient: nat, scale: nat)

  function Numerator(d: Decimal): int {
    if d.negative then -(d.coefficient as int) else d.coefficient
  }

  /**
   * Decimal(text) for texts of the form [sign] digits ['.' [digits]] or [sign] '.' digits;
   * None where the constructor would raise.
   */
  function ParseDecimal(s: string): Option<Decimal> {
    var negative := |s| > 0 && s[0] == '-';
    var body := if |s| > 0 && (s[0] == '+' || s[0] == '-') then s[1..] else s;
    match ParseUnsigned(body)
    case None => None
    case Some(d) => Some(Decimal(negative, d.coefficient, d.scale))
  }

  /** The unsigned part: digits ['.' [digits]] or '.' digits, as a non-negative Decimal. */
  function ParseUnsigned(body: string): (r: Option<Decimal>)
    ensures r.Some? ==> !r.value.negative
  {
    match IndexOf(body, '.')
    case None =>
      if |body| > 0 && AllDigits(body) then Some(Decimal(false, DigitsValue(body), 0)) else None
    case Some(i) =>
      var whole, fraction := body[..i], body[i + 1..];
      if |whole| + |fraction| > 0 && AllDigits(whole) && AllDigits(fraction) then
        DigitsValueAppend(whole, fraction);
        Some(Decimal(false, DigitsValue(whole + fraction), |fraction|))
      else None
  }

  // ---------------------------------------------------------------------------
  // money_to_cents and cents_to_money_str
  // ---------------------------------------------------------------------------

  datatype MoneyError =
    | InvalidNumber   // Decimal() raised: the text is not a number
    | NegativeAmount  // the amount rounds to fewer than zero cents

  /**
   * money_to_cents: the stripped text times 100, rounded half-up to a whole number of
   * cents; rejected exactly when that rounding is negative, so "-0.004" gives 0.
   */
  function MoneyToCents(s: string): (r: Result<int, MoneyError>)
    ensures r.Ok? ==> r.value >= 0
  {
    match ParseDecimal(Strip(s))
    case None => Err(InvalidNumber)
    case Some(d) =>
      var cents := RoundHalfUp(Numerator(d) * 100, Pow10(d.scale));
      if cents < 0 then Err(NegativeAmount) else Ok(cents)
  }

  /**
   * What money_to_cents decides: text that is not a number is invalid; a number is
   * rejected as negative exactly when it is at most minus half a cent; otherwise the
   * result is the half-up rounding of the number of cents.
   */
  lemma MoneyToCentsMeaning(s: string)
    ensures ParseDecimal(Strip(s)).None? ==> MoneyToCents(s) == Err(InvalidNumber)
    ensures ParseDecimal(Strip(s)).Some? ==>
              var d := ParseDecimal(Strip(s)).value;
              var r := MoneyToCents(s);
              && (r.Err? <==> 2 * (Numerator(d) * 100) <= -(Pow10(d.scale) as int))
              && (r.Err? ==> r.error == NegativeAmount)
              && (r.Ok? ==> IsHalfUpRounding(Numerator(d) * 100, Pow10(d.scale), r.value))
  {
    match ParseDecimal(Strip(s))
    case None =>
    case Some(d) =>
      var cents := RoundHalfUp(Numerator(d) * 100, Pow10(d.scale));
      RoundHalfUpCorrect(Numerator(d) * 100, Pow10(d.scale));
      HalfUpNegative(Numerator(d) * 100, Pow10(d.scale), cents);
  }

  /** cents_to_money_str: the amount in units with exactly two digits after the point. */
  function CentsToMoneyStr(cents: int): (s: string)
    ensures |s| >= 4 && s[|s| - 3] == '.' && IsDigit(s[|s| - 2]) && IsDigit(s[|s| - 1])
    ensures '.' !in s[..|s| - 3]
    ensures s[0] == '-' <==> cents < 0
  {
    var units := NatToDigits(Magnitude(cents) / 100);
    NoPointInDigits(units);
    var s := SignText(cents) + units + "." + TwoDigits(Magnitude(cents) % 100);
    assert s[..|s| - 3] == SignText(cents) + units;
    s
  }

  function Magnitude(cents: int): nat {
    if cents < 0 then -cents else cents
  }

  function SignText(cents: int): string {
    if cents < 0 then "-" else ""
  }

  /** The two digits of k, with a leading zero below ten. */
  function TwoDigits(k: nat): (s: string)
    requires k < 100
    ensures |s| == 2 && AllDigits(s) && DigitsValue(s) == k
  {
    var s := [DigitChar(k / 10), DigitChar(k % 10)];
    assert s[..1] == [s[0]] && s[..1][..0] == [];
    assert DigitsValue(s[..1]) == k / 10;
    assert DigitsValue(s) == 10 * (k / 10) + k % 10;
    s
  }

  lemma NoPointInDigits(s: string)
    requires AllDigits(s)
    ensures '.' !in s
  {
    assert forall i :: 0 <= i < |s| ==> s[i] != '.' by {
      forall i | 0 <= i < |s| ensures s[i] != '.' { assert IsDigit(s[i]); }
    }
  }

  /** A text of digits alone reads as the whole number they denote. */
  lemma ParseWhole(units: string)
    requires |units| > 0 && AllDigits(units)
    ensures ParseUnsigned(units) == Some(Decimal(false, DigitsValue(units), 0))
  {
    NoPointInDigits(units);
  }

  /** A text digits '.' digits reads as all the digits over 10^(number of fraction digits). */
  lemma ParseFraction(units: string, frac: string)
    requires |units| + |frac| > 0 && AllDigits(units) && AllDigits(frac)
    ensures AllDigits(units + frac)
    ensures ParseUnsigned(units + "." + frac) == Some(Decimal(false, DigitsValue(units + frac), |frac|))
  {
    var body := units + "." + frac;
    PointAfterDigits(units, frac);
    assert body[..|units|] == units && body[|units| + 1..] == frac;
    DigitsValueAppend(units, frac);
  }

  /** In digits '.' rest, the first point is the one right after the digits. */
  lemma PointAfterDigits(units: string, rest: string)
    requires AllDigits(units)
    ensures IndexOf(units + "." + rest, '.') == Some(|units|)
  {
    NoPointInDigits(units);
    IndexAfter(units, '.', rest);
  }

  /** The text cents_to_money_str writes has no surrounding blanks. */
  lemma MoneyStrUnpadded(cents: int)
    ensures Strip(CentsToMoneyStr(cents)) == CentsToMoneyStr(cents)
  {
    var units := NatToDigits(Magnitude(cents) / 100);
    var s := CentsToMoneyStr(cents);
    assert s[0] == '-' || s[0] == units[0];
    assert IsDigit(units[0]);
    StripUnpadded(s);
  }

  /** The text cents_to_money_str writes reads back as sign, all the cents, and scale 2. */
  lemma MoneyStrParses(cents: int)
    ensures ParseDecimal(Strip(CentsToMoneyStr(cents))) == Some(Decimal(cents < 0, Magnitude(cents), 2))
  {
    var m := Magnitude(cents);
    var units, frac := NatToDigits(m / 100), TwoDigits(m % 100);
    var body := units + "." + frac;
    assert CentsToMoneyStr(cents) == SignText(cents) + body;
    MoneyStrUnpadded(cents);
    ParseFraction(units, frac);
    SignedParse(cents, body);
    assert DigitsValue(units + frac) == m by {
      assert Pow10(|frac|) == 100;
      DigitsValueAppend(units, frac);
      DigitsRoundTrip(m / 100);
    }
  }

  /** A sign written by SignText in front of an unsigned body is read back as that sign. */
  lemma SignedParse(cents: int, body: string)
    requires |body| > 0 && IsDigit(body[0])
    ensures ParseDecimal(SignText(cents) + body) ==
              match ParseUnsigned(body)
              case None => None
              case Some(d) => Some(Decimal(cents < 0, d.coefficient, d.scale))
  {
    var s := SignText(cents) + body;
    if cents < 0 {
      assert s[0] == '-' && s[1..] == body;
    } else {
      assert s == body;
    }
  }

  /**
   * Round trip: money_to_cents(cents_to_money_str(c)) gives back c for every c >= 0,
   * and rejects the text as negative for every c < 0.
   */
  lemma MoneyRoundTrip(cents: int)
    ensures MoneyToCents(CentsToMoneyStr(cents)) == if cents >= 0 then Ok(cents) else Err(NegativeAmount)
  {
    MoneyStrParses(cents);
    MoneyToCentsMeaning(CentsToMoneyStr(cents));
    var r := MoneyToCents(CentsToMoneyStr(cents));
    if cents >= 0 {
      HalfUpWhole(cents, 100);
      HalfUpUnique(cents * 100, 100, cents, r.value);
    }
  }

  /** A whole number of units, written in digits, is that many hundreds of cents. */
  lemma WholeUnitsToCents(n: nat)
    ensures MoneyToCents(NatToDigits(n)) == Ok(100 * n)
  {
    var s := NatToDigits(n);
    NoPointInDigits(s);
    assert IsDigit(s[0]) && IsDigit(s[|s| - 1]);
    StripUnpadded(s);
    ParseWhole(s);
    DigitsRoundTrip(n);
    UnsignedText(s, Decimal(false, n, 0));
    assert Pow10(0) == 1;
    HalfUpWhole(100 * n, 1);
  }

  /** The custom-amount prompt's first example, "420": 420 units are 42000 cents. */
  lemma PromptWholeExample()
    ensures MoneyToCents("420") == Ok(42000)
  {
    assert DigitsValue("420") == 420 by {
      assert "420"[..2] == "42" && "42"[..1] == "4" && "4"[..0] == "";
    }
    StripUnpadded("420");
    ParseWhole("420");
    assert ParseDecimal("420") == Some(Decimal(false, 420, 0));
    assert Pow10(0) == 1;
    HalfUpWhole(42000, 1);
  }

  /** The custom-amount prompt's second example, "420.50", read with surrounding blanks. */
  lemma PromptFractionExample()
    ensures MoneyToCents(" 420.50\n") == Ok(42050)
  {
    PaddedPromptText();
    PromptFractionText();
    UnsignedText("420.50", Decimal(false, 42050, 2));
    assert Pow10(2) == 100;
    HalfUpWhole(42050, 100);
  }

  /** The docstring's "420.5": one fraction digit is tenths, so it is 42050 cents as well. */
  lemma TenthsExample()
    ensures MoneyToCents("420.5") == Ok(42050)
  {
    TenthsText();
    StripUnpadded("420.5");
    UnsignedText("420.5", Decimal(false, 4205, 1));
    assert Pow10(1) == 10;
    HalfUpWhole(42050, 10);
  }

  lemma TenthsText()
    ensures ParseUnsigned("420.5") == Some(Decimal(false, 4205, 1))
  {
    assert DigitsValue("4205") == 4205 by {
      assert "4205"[..3] == "420" && "420"[..2] == "42" && "42"[..1] == "4" && "4"[..0] == "";
    }
    assert "420" + "." + "5" == "420.5" && "420" + "5" == "4205";
    ParseFraction("420", "5");
  }

  lemma PaddedPromptText()
    ensures Strip(" 420.50\n") == "420.50"
  {
    assert " 420.50\n" == " " + "420.50" + "\n";
    StripPadded(" ", "420.50", "\n");
  }

  lemma PromptFractionText()
    ensures ParseUnsigned("420.50") == Some(Decimal(false, 42050, 2))
  {
    assert DigitsValue("42050") == 42050 by {
      assert "42050"[..4] == "4205" && "4205"[..3] == "420";
      assert "420"[..2] == "42" && "42"[..1] == "4" && "4"[..0] == "";
    }
    assert "420" + "." + "50" == "420.50" && "420" + "50" == "42050";
    ParseFraction("420", "50");
  }

  /** Half a cent rounds up to a whole cent. */
  lemma HalfCentExample()
    ensures MoneyToCents("0.005") == Ok(1)
  {
    ThousandthsParse(false, 5, "0.005");
    HalfUpThousandths();
    assert Numerator(Decimal(false, 5, 3)) * 100 == 500 && Pow10(3) == 1000;
    ParsedCents("0.005", Decimal(false, 5, 3), 1);
  }

  /** A negative amount that rounds to zero cents is accepted as zero. */
  lemma NegativeZeroExample()
    ensures MoneyToCents("-0.004") == Ok(0)
  {
    ThousandthsParse(true, 4, "-0.004");
    HalfUpThousandths();
    assert Numerator(Decimal(true, 4, 3)) * 100 == -400 && Pow10(3) == 1000;
    ParsedCents("-0.004", Decimal(true, 4, 3), 0);
  }

  /** Minus half a cent rounds away from zero, to -1 cent, and is rejected. */
  lemma NegativeHalfCentExample()
    ensures MoneyToCents("-0.005") == Err(NegativeAmount)
  {
    ThousandthsParse(true, 5, "-0.005");
    HalfUpThousandths();
    assert Numerator(Decimal(true, 5, 3)) * 100 == -500 && Pow10(3) == 1000;
    ParsedCents("-0.005", Decimal(true, 5, 3), -1);
  }

  /** "0.00d", optionally after a minus sign, reads as d thousandths. */
  lemma ThousandthsParse(negative: bool, d: nat, s: string)
    requires d < 10 && s == (if negative then "-" else "") + "0.00" + [DigitChar(d)]
    ensures ParseDecimal(Strip(s)) == Some(Decimal(negative, d, 3))
  {
    ThousandthsText(d);
    assert s[|s| - 1] == DigitChar(d);
    StripUnpadded(s);
    if negative {
      assert s[1..] == "0.00" + [DigitChar(d)];
      MinusText(s, Decimal(false, d, 3));
    } else {
      assert s == "0.00" + [DigitChar(d)] && s[0] == '0';
      UnsignedText(s, Decimal(false, d, 3));
    }
  }

  /** Half-up rounding of thousandths to hundredths: ties go away from zero. */
  lemma HalfUpThousandths()
    ensures RoundHalfUp(500, 1000) == 1 && RoundHalfUp(-400, 1000) == 0 && RoundHalfUp(-500, 1000) == -1
  {
    assert (2 * 500 + 1000) / 2000 == 1;
    assert (800 + 1000) / 2000 == 0;
    assert (1000 + 1000) / 2000 == 1;
  }

  /** A text that is already stripped and parses as d is rounded from d. */
  lemma ParsedCents(s: string, d: Decimal, cents: int)
    requires ParseDecimal(Strip(s)) == Some(d) && RoundHalfUp(Numerator(d) * 100, Pow10(d.scale)) == cents
    ensures MoneyToCents(s) == if cents < 0 then Err(NegativeAmount) else Ok(cents)
  {
  }

  /** A minus sign before an unsigned number negates it. */
  lemma MinusText(s: string, d: Decimal)
    requires |s| > 0 && s[0] == '-' && ParseUnsigned(s[1..]) == Some(d)
    ensures ParseDecimal(s) == Some(Decimal(true, d.coefficient, d.scale))
  {
  }

  /** "0.00d" reads as d thousandths. */
  lemma ThousandthsText(d: nat)
    requires d < 10
    ensures ParseUnsigned("0.00" + [DigitChar(d)]) == Some(Decimal(false, d, 3))
  {
    var frac := "00" + [DigitChar(d)];
    assert "0.00" + [DigitChar(d)] == "0" + "." + frac;
    ParseFraction("0", frac);
    assert DigitsValue("0" + frac) == d by {
      var s := "0" + frac;
      assert s[..3] == "000" && "000"[..2] == "00" && "00"[..1] == "0" && "0"[..0] == "";
    }
  }

  /** A stripped text starting with a digit is read with no sign. */
  lemma UnsignedText(s: string, d: Decimal)
    requires |s| > 0 && IsDigit(s[0]) && ParseUnsigned(s) == Some(d)
    ensures ParseDecimal(s) == Some(d)
  {
  }

  // ---------------------------------------------------------------------------
  // compute_fee_net
  // ---------------------------------------------------------------------------

  /** FEE_PCT as the exact rational num/den. */
  datatype Rate = Rate(num: int, den: Positive)

  /** The default FEE_PCT, Decimal("0.02"). */
  const DEFAULT_FEE_RATE: Rate := Rate(2, 100)

  /** Decimal(FEE_PCT text) as a rate; None where the constructor would raise. */
  function ParseFeeRate(s: string): (r: Option<Rate>)
    ensures r.Some? <==> ParseDecimal(Strip(s)).Some?
    ensures r.Some? ==> var d := ParseDecimal(Strip(s)).value;
                        r.value.num * Pow10(d.scale) == Numerator(d) * r.value.den
  {
    match ParseDecimal(Strip(s))
    case None => None
    case Some(d) => Some(Rate(Numerator(d), Pow10(d.scale)))
  }

  lemma DefaultFeeRateText()
    ensures ParseFeeRate("0.02") == Some(DEFAULT_FEE_RATE)
  {
    assert DigitsValue("002") == 2 by { assert "002"[..2] == "00" && "00"[..1] == "0" && "0"[..0] == ""; }
    assert Pow10(2) == 100;
    StripUnpadded("0.02");
    assert "0.02" == "0" + "." + "02" && "0" + "02" == "002";
    ParseFraction("0", "02");
  }

  datatype FeeNet = FeeNet(fee: int, net: int)

  /**
   * compute_fee_net: the fee is total x rate rounded half-up to the cent; the net is
   * what remains, which is already a whole number of cents.
   */
  function ComputeFeeNet(totalCents: int, rate: Rate): (r: FeeNet)
    ensures r.fee + r.net == totalCents
  {
    var fee := RoundHalfUp(totalCents * rate.num, rate.den);
    FeeNet(fee, totalCents - fee)
  }

  /** The fee is the half-up rounding of total x rate. */
  lemma FeeIsRounded(totalCents: int, rate: Rate)
    ensures IsHalfUpRounding(totalCents * rate.num, rate.den, ComputeFeeNet(totalCents, rate).fee)
  {
    RoundHalfUpCorrect(totalCents * rate.num, rate.den);
  }

  /** With a rate between 0 and 1, neither the fee nor the net of a non-negative total is negative. */
  lemma FeeWithinTotal(totalCents: int, rate: Rate)
    requires totalCents >= 0 && 0 <= rate.num <= rate.den
    ensures 0 <= ComputeFeeNet(totalCents, rate).fee <= totalCents
    ensures 0 <= ComputeFeeNet(totalCents, rate).net <= totalCents
  {
    var fee := ComputeFeeNet(totalCents, rate).fee;
    var num := totalCents * rate.num;
    FeeIsRounded(totalCents, rate);
    assert 0 <= num <= totalCents * rate.den by {
      MulMonotone(rate.num, rate.den, if totalCents == 0 then 1 else totalCents);
    }
    MulMonotone(-1, 2 * fee + 1, rate.den);
    MulMonotone(2 * fee - 1, 2 * totalCents + 1, rate.den);
  }

  lemma FeeExample()
    ensures ComputeFeeNet(100000, DEFAULT_FEE_RATE) == FeeNet(2000, 98000)
    ensures ComputeFeeNet(25, DEFAULT_FEE_RATE) == FeeNet(1, 24)
    ensures ComputeFeeNet(24, DEFAULT_FEE_RATE) == FeeNet(0, 24)
  {
  }
}
