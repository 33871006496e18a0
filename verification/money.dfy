/** The currency-tagged monetary value of `mcduck/core/models.py`. An amount
    is always a whole number of cents, so it is kept as the integer `cents`
    and denotes the decimal `cents × 10^-2`; every operation builds its
    result through the constructor, which quantizes to the cent with
    round-half-up. */
module Models {
  import opened Results
  import opened Rounding
  import opened Decimals
  import DecimalText

  /** `DECIMAL_CENT`, the unit amounts are quantized to: `Decimal("0.01")`. */
  const DecimalCent: Dec := Dec(1, -2)

  /** `BASE_CURRENCY`, the currency used when none is given. */
  const BaseCurrency: string := "BRL"

  /** A monetary value: `cents` hundredths of a unit of `currency`. */
  datatype Money = Money(cents: int, currency: string)

  /** The raw amounts the constructor converts with `Decimal(raw_amount)`:
      an exact decimal, a numeral, or a sign/digits/exponent tuple. */
  datatype RawAmount =
    | DecimalAmount(decimal: Dec)
    | TextAmount(text: string)
    | TupleAmount(sign: int, digits: seq<int>, exponent: int)

  /** The scalars money can be multiplied and divided by. */
  datatype Scalar = IntScalar(integer: int) | DecimalScalar(decimal: Dec)

  /** The right operand of a comparison, which need not be money. */
  datatype Operand = MoneyOperand(money: Money) | OtherOperand

  /** What a rich comparison method returns: a truth value, or
      `NotImplemented` when it does not handle the operand's type. */
  datatype Comparison = NotImplemented | Answer(holds: bool)

  /** `m.amount`, a decimal with exactly two fractional digits. */
  function Amount(m: Money): (d: Dec)
    ensures d.exponent == DecimalCent.exponent
    ensures Value(d) == m.cents as real / 100.0
  {
    CentValue(m.cents);
    Dec(m.cents, DecimalCent.exponent)
  }

  /** `Decimal(raw_amount)`. */
  function ToDecimal(raw: RawAmount): (r: Result<Dec, DecimalError>)
    ensures raw.DecimalAmount? ==> r == Ok(raw.decimal)
    ensures raw.TupleAmount? ==> (r.Ok? <==> (raw.sign == 0 || raw.sign == 1) && IsDigits(raw.digits))
  {
    match raw
    case DecimalAmount(d) => Ok(d)
    case TextAmount(s) => DecimalText.Parse(s)
    case TupleAmount(sign, digits, exponent) => FromTuple(sign, digits, exponent)
  }

  /** `Decimal(scalar)`: an integer is the decimal with exponent zero. */
  function ScalarDecimal(s: Scalar): (d: Dec)
    ensures s.IntScalar? ==> Value(d) == s.integer as real
  {
    match s
    case IntScalar(k) =>
      ValueOfInteger(k);
      Dec(k, 0)
    case DecimalScalar(d) => d
  }

  /** The constructor on a decimal that is already exact: quantize to the
      cent with round-half-up. The cents are the decimal's value, counted in
      cents, rounded half up. */
  function OfDecimal(d: Dec, currency: string): (m: Money)
    ensures m.currency == currency
    ensures IsHalfUpRounding(Value(d) * 100.0, m.cents)
  {
    var q := Quantize(d, DecimalCent.exponent);
    UnitsInCents(d);
    Money(q.coefficient, currency)
  }

  /** `Money(raw_amount, currency)`: convert, then quantize to the cent.
      A raw amount that does not convert is an error and makes no money. */
  function New(raw: RawAmount, currency: string): (r: Result<Money, DecimalError>)
    ensures r.Ok? <==> ToDecimal(raw).Ok?
    ensures r.Err? ==> r.error == ToDecimal(raw).error
    ensures r.Ok? ==> r.value.currency == currency
    ensures r.Ok? ==> IsHalfUpRounding(Value(ToDecimal(raw).value) * 100.0, r.value.cents)
  {
    match ToDecimal(raw)
    case Ok(d) => Ok(OfDecimal(d, currency))
    case Err(e) => Err(e)
  }

  /** `Money.zero(currency)`: the constructor applied to the text `"0.00"`. */
  function Zero(currency: string): (m: Money)
    ensures m == Money(0, currency)
  {
    ZeroText(currency);
    New(TextAmount("0.00"), currency).value
  }

  /** `a + b`: the exact sum, re-quantized, in the left operand's currency. */
  function Add(a: Money, b: Money): (r: Money)
    ensures r.cents == a.cents + b.cents
    ensures r.currency == a.currency
  {
    var sum := Decimals.Add(Amount(a), Amount(b));
    SameExponentSum(a.cents, b.cents, DecimalCent.exponent);
    QuantizeInPlace(sum.coefficient, DecimalCent.exponent);
    OfDecimal(sum, a.currency)
  }

  /** `a - b`: the exact difference, re-quantized, in the left operand's currency. */
  function Sub(a: Money, b: Money): (r: Money)
    ensures r.cents == a.cents - b.cents
    ensures r.currency == a.currency
  {
    var difference := Decimals.Sub(Amount(a), Amount(b));
    SameExponentDifference(a.cents, b.cents, DecimalCent.exponent);
    QuantizeInPlace(difference.coefficient, DecimalCent.exponent);
    OfDecimal(difference, a.currency)
  }

  /** `m * s`: the exact product rounded half up to the cent. */
  function Mul(m: Money, s: Scalar): (r: Money)
    ensures r.currency == m.currency
    ensures IsHalfUpRounding(m.cents as real * Value(ScalarDecimal(s)), r.cents)
  {
    var product := Decimals.Mul(Amount(m), ScalarDecimal(s));
    ProductInCents(m.cents, ScalarDecimal(s), product);
    OfDecimal(product, m.currency)
  }

  /** `s * m`, which the source binds to the same method as `m * s`. */
  function RMul(s: Scalar, m: Money): (r: Money)
    ensures r.currency == m.currency
    ensures IsHalfUpRounding(Value(ScalarDecimal(s)) * m.cents as real, r.cents)
  {
    Mul(m, s)
  }

  /** `m / s`. A zero divisor raises: division by zero for a non-zero
      amount, an undefined division for a zero amount. Otherwise the exact
      quotient is rounded half up to the cent. */
  function Div(m: Money, s: Scalar): (r: Result<Money, DecimalError>)
    ensures r.Err? <==> Value(ScalarDecimal(s)) == 0.0
    ensures r.Err? && m.cents != 0 ==> r.error == DivisionByZero
    ensures r.Err? && m.cents == 0 ==> r.error == DivisionUndefined
    ensures r.Ok? ==> r.value.currency == m.currency
    ensures r.Ok? ==> IsHalfUpRounding(m.cents as real / Value(ScalarDecimal(s)), r.value.cents)
  {
    var divisor := ScalarDecimal(s);
    ZeroValue(divisor);
    if divisor.coefficient == 0 then
      Err(if m.cents == 0 then DivisionUndefined else DivisionByZero)
    else
      var q := QuantizeQuotient(Amount(m), divisor, DecimalCent.exponent);
      QuotientInCents(m.cents, divisor);
      Ok(Money(q.coefficient, m.currency))
  }

  // ------------------------------------------------------------ comparison

  /** `a < other`: amounts only; `NotImplemented` for anything but money. */
  function Lt(a: Money, other: Operand): (r: Comparison)
    ensures other.OtherOperand? ==> r == NotImplemented
    ensures other.MoneyOperand? ==> r == Answer(a.cents < other.money.cents)
  {
    match other
    case OtherOperand => NotImplemented
    case MoneyOperand(b) =>
      CentOrder(a.cents, b.cents);
      Answer(Decimals.Less(Amount(a), Amount(b)))
  }

  /** `a == other` as the dataclass defines it: the same type, then equal
      `(amount, currency)` tuples, the amounts compared as numbers. */
  function Eq(a: Money, other: Operand): (r: Comparison)
    ensures other.OtherOperand? ==> r == NotImplemented
    ensures other.MoneyOperand? ==> r == Answer(a == other.money)
  {
    match other
    case OtherOperand => NotImplemented
    case MoneyOperand(b) =>
      CentOrder(a.cents, b.cents);
      Answer(Decimals.Equal(Amount(a), Amount(b)) && a.currency == b.currency)
  }

  /** `a != other`: the negation of `==` when `==` answers. */
  function Ne(a: Money, other: Operand): (r: Comparison)
    ensures other.OtherOperand? ==> r == NotImplemented
    ensures other.MoneyOperand? ==> r == Answer(a != other.money)
  {
    match Eq(a, other)
    case NotImplemented => NotImplemented
    case Answer(equal) => Answer(!equal)
  }

  /** `a > other` as `functools.total_ordering` derives it from `<`:
      not less, and not equal. */
  function Gt(a: Money, other: Operand): (r: Comparison)
    ensures other.OtherOperand? ==> r == NotImplemented
    ensures other.MoneyOperand? ==> r == Answer(
      other.money.cents < a.cents || (a.cents == other.money.cents && a.currency != other.money.currency))
  {
    match Lt(a, other)
    case NotImplemented => NotImplemented
    case Answer(less) => if less then Answer(false) else Ne(a, other)
  }

  /** `a <= other` as derived from `<`: less, or equal. */
  function Le(a: Money, other: Operand): (r: Comparison)
    ensures other.OtherOperand? ==> r == NotImplemented
    ensures other.MoneyOperand? ==> r == Answer(
      a.cents < other.money.cents || (a.cents == other.money.cents && a.currency == other.money.currency))
  {
    match Lt(a, other)
    case NotImplemented => NotImplemented
    case Answer(less) => if less then Answer(true) else Eq(a, other)
  }

  /** `a >= other` as derived from `<`: not less. */
  function Ge(a: Money, other: Operand): (r: Comparison)
    ensures other.OtherOperand? ==> r == NotImplemented
    ensures other.MoneyOperand? ==> r == Answer(other.money.cents <= a.cents)
  {
    match Lt(a, other)
    case NotImplemented => NotImplemented
    case Answer(less) => Answer(!less)
  }

  /** `a > other` ordered by amount alone, as the class intends: `other < a`. */
  function GtByAmount(a: Money, other: Operand): (r: Comparison)
    ensures other.OtherOperand? ==> r == NotImplemented
    ensures other.MoneyOperand? ==> r == Answer(other.money.cents < a.cents)
  {
    match other
    case OtherOperand => NotImplemented
    case MoneyOperand(b) => Lt(b, MoneyOperand(a))
  }

  /** `a <= other` ordered by amount alone: not `other < a`. */
  function LeByAmount(a: Money, other: Operand): (r: Comparison)
    ensures other.OtherOperand? ==> r == NotImplemented
    ensures other.MoneyOperand? ==> r == Answer(a.cents <= other.money.cents)
  {
    match GtByAmount(a, other)
    case NotImplemented => NotImplemented
    case Answer(greater) => Answer(!greater)
  }

  // ------------------------------------------------------- helper lemmas

  /** A cent amount's value. */
  lemma CentValue(c: int)
    ensures Value(Dec(c, -2)) == c as real / 100.0
  {
    ValueOf(c, -2);
    assert Scale(-2) == 1.0 / 100.0 by {
      ScaleOfNegative(-2);
    }
  }

  lemma ValueOfInteger(k: int)
    ensures Value(Dec(k, 0)) == k as real
  {
    ValueOf(k, 0);
  }

  /** A value counted in cents is the value times a hundred. */
  lemma UnitsInCents(d: Dec)
    ensures Units(d, -2) == Value(d) * 100.0
  {
    UnitsDef(d, -2);
    ScaleOfNat(2);
  }

  /** The decimal zero is the only decimal whose coefficient is zero. */
  lemma ZeroValue(d: Dec)
    ensures Value(d) == 0.0 <==> d.coefficient == 0
  {
    ValueDef(d);
  }

  lemma CentOrder(x: int, y: int)
    ensures x < y <==> Value(Dec(x, -2)) < Value(Dec(y, -2))
    ensures x == y <==> Value(Dec(x, -2)) == Value(Dec(y, -2))
  {
    CoefficientOrder(x, y, -2);
  }

  lemma SameExponentSum(x: int, y: int, e: int)
    ensures Decimals.Add(Dec(x, e), Dec(y, e)) == Dec(x + y, e)
  {
  }

  lemma SameExponentDifference(x: int, y: int, e: int)
    ensures Decimals.Sub(Dec(x, e), Dec(y, e)) == Dec(x - y, e)
  {
  }

  /** Quantizing to the exponent a decimal already has changes nothing. */
  lemma QuantizeInPlace(c: int, e: int)
    ensures Quantize(Dec(c, e), e) == Dec(c, e)
  {
  }

  lemma ZeroText(currency: string)
    ensures New(TextAmount("0.00"), currency) == Ok(Money(0, currency))
  {
    DecimalText.ParseZeroCents();
    QuantizeInPlace(0, DecimalCent.exponent);
  }

  /** The product, counted in cents, is the cents times the scalar. */
  lemma ProductInCents(c: int, d: Dec, product: Dec)
    requires product == Decimals.Mul(Dec(c, -2), d)
    ensures Units(product, -2) == c as real * Value(d)
  {
    UnitsInCents(product);
    CentValue(c);
    assert Value(product) == c as real / 100.0 * Value(d);
  }

  /** The quotient, counted in cents, is the cents over the divisor. */
  lemma QuotientInCents(c: int, d: Dec)
    requires d.coefficient != 0
    ensures QuotientUnits(Dec(c, -2), d, -2) == c as real / Value(d)
  {
    ScaleOfNat(2);
    CentValue(c);
    ZeroValue(d);
    assert QuotientUnits(Dec(c, -2), d, -2) == c as real / 100.0 / Value(d) * 100.0;
  }
}
