/** What the operations on money promise together: construction is a
    faithful rounding and round-trips through the amount's text and tuple,
    addition and subtraction are exact, integer scaling is exact and undone
    by division, and the derived comparisons order money by amount within a
    currency but not across currencies. */
module MoneyLaws {
  import opened Results
  import opened Rounding
  import Decimals
  import opened RealFacts
  import DecimalText
  import opened Models

  // ---------------------------------------------------------- construction

  /** The constructor's cents are exactly the half-up rounding of the
      amount counted in cents: the reference definition, both directions. */
  lemma NewIsRounding(d: Decimals.Dec, currency: string, m: Money)
    ensures New(DecimalAmount(d), currency) == Ok(m) <==>
            m.currency == currency && IsHalfUpRounding(Decimals.Value(d) * 100.0, m.cents)
  {
    if m.currency == currency && IsHalfUpRounding(Decimals.Value(d) * 100.0, m.cents) {
      HalfUpUnique(Decimals.Value(d) * 100.0, m.cents, New(DecimalAmount(d), currency).value.cents);
    }
  }

  /** Rebuilding money from its own amount gives it back: construction is
      idempotent. */
  lemma NewOfOwnAmount(m: Money)
    ensures New(DecimalAmount(Amount(m)), m.currency) == Ok(m)
  {
    QuantizeInPlace(m.cents, DecimalCent.exponent);
  }

  /** The amount's plain text parses back to the same money. */
  lemma TextRoundTrip(m: Money)
    ensures New(TextAmount(DecimalText.FormatPlain(m.cents, 2)), m.currency) == Ok(m)
  {
    DecimalText.FormatPlainRoundTrip(m.cents, 2);
    QuantizeInPlace(m.cents, DecimalCent.exponent);
  }

  /** The amount's sign/digits/exponent tuple converts back to the same money. */
  lemma AmountTupleRoundTrip(m: Money)
    ensures var t := Decimals.AsTuple(Amount(m));
            New(TupleAmount(t.0, t.1, t.2), m.currency) == Ok(m)
  {
    Decimals.TupleRoundTrip(Amount(m));
    QuantizeInPlace(m.cents, DecimalCent.exponent);
  }

  /** A decimal worth a whole number of cents is taken without rounding. */
  lemma NewOfWholeCents(d: Decimals.Dec, c: int, currency: string)
    requires Decimals.Value(d) == c as real / 100.0
    ensures OfDecimal(d, currency) == Money(c, currency)
  {
    CentValue(c);
    Decimals.QuantizeExact(d, DecimalCent.exponent, c);
  }

  /** Ties go away from zero, so constructing from a negated amount negates
      the cents. */
  lemma NewOfNegation(d: Decimals.Dec, currency: string)
    ensures OfDecimal(Decimals.Negate(d), currency).cents == -OfDecimal(d, currency).cents
  {
    Decimals.QuantizeNegate(d, DecimalCent.exponent);
  }

  /** Construction preserves the order of amounts. */
  lemma NewMonotone(a: Decimals.Dec, b: Decimals.Dec, currency: string)
    requires Decimals.Value(a) <= Decimals.Value(b)
    ensures OfDecimal(a, currency).cents <= OfDecimal(b, currency).cents
  {
    Decimals.QuantizeMonotone(a, b, DecimalCent.exponent);
  }

  /** A numeral with digits `w` before the point and `f` after it
      constructs the money its decimal rounds to. */
  lemma NewOfNumeral(negative: bool, w: string, f: string, currency: string)
    requires |w| > 0 && DecimalText.AllDigitChars(w) && DecimalText.AllDigitChars(f)
    ensures var magnitude := Decimals.DigitsValue(DecimalText.DigitsOf(w) + DecimalText.DigitsOf(f));
            New(TextAmount(DecimalText.Spell(negative, w, f)), currency) ==
            Ok(OfDecimal(Decimals.Dec(if negative then -magnitude else magnitude, -(|f| as int)), currency))
  {
    DecimalText.ParseSpelled(negative, w, f);
  }

  /** Half a cent rounds up to a cent. */
  lemma HalfCentRoundsUp()
    ensures New(TextAmount("0.005"), BaseCurrency) == Ok(Money(1, "BRL"))
  {
    HalfCentText();
    ThousandthsRounding(5, 1);
  }

  /** Minus half a cent rounds away from zero, to minus a cent. */
  lemma NegativeHalfCentRoundsDown()
    ensures New(TextAmount("-0.005"), BaseCurrency) == Ok(Money(-1, "BRL"))
  {
    NegativeHalfCentText();
    ThousandthsRounding(-5, -1);
  }

  /** Less than half a cent is dropped. */
  lemma BelowHalfRoundsDown()
    ensures New(TextAmount("1.004"), BaseCurrency) == Ok(Money(100, "BRL"))
  {
    BelowHalfText();
    ThousandthsRounding(1004, 100);
  }

  /** Exactly half a cent above a whole amount rounds up. */
  lemma HalfRoundsUp()
    ensures New(TextAmount("1.005"), BaseCurrency) == Ok(Money(101, "BRL"))
  {
    HalfText();
    ThousandthsRounding(1005, 101);
  }

  /** A third decimal of nine carries into the units. */
  lemma CarryIntoUnits()
    ensures New(TextAmount("19.999"), BaseCurrency) == Ok(Money(2000, "BRL"))
  {
    CarryText();
    ThousandthsRounding(19999, 2000);
  }

  /** A numeral that is not a number is refused. */
  lemma RejectsBadText(currency: string)
    ensures New(TextAmount("1.2.3"), currency) == Err(Decimals.ConversionSyntax)
    ensures New(TextAmount(""), currency) == Err(Decimals.ConversionSyntax)
  {
    DecimalText.ParseTwoPoints();
    DecimalText.ParseEmpty();
  }

  /** A tuple with a sign other than 0 or 1, or a digit outside 0..9, is refused. */
  lemma RejectsBadTuple(currency: string)
    ensures New(TupleAmount(2, [1], 0), currency) == Err(Decimals.InvalidTupleSign)
    ensures New(TupleAmount(0, [1, 10], -2), currency) == Err(Decimals.InvalidTupleDigit)
  {
    assert !Decimals.IsDigits([1, 10]) by {
      assert [1, 10][1] == 10;
    }
  }

  /** The zero of the base currency. */
  lemma ZeroOfBaseCurrency()
    ensures Zero(BaseCurrency) == Money(0, "BRL")
    ensures New(TextAmount("0.00"), BaseCurrency) == Ok(Zero(BaseCurrency))
  {
    ZeroText(BaseCurrency);
  }

  // ---------------------------------------------------- addition, subtraction

  /** Zero is a right identity, whatever currency it carries. */
  lemma AddZero(m: Money, currency: string)
    ensures Add(m, Zero(currency)) == m
    ensures Sub(m, Zero(currency)) == m
    ensures Add(Zero(currency), m) == Money(m.cents, currency)
  {
    var r := Add(Zero(currency), m);
    assert r.cents == m.cents && r.currency == currency;
  }

  /** Money less itself is zero of its currency. */
  lemma SubSelf(m: Money)
    ensures Sub(m, m) == Zero(m.currency)
  {
  }

  /** Subtraction undoes addition and addition undoes subtraction. */
  lemma AddSubInverse(a: Money, b: Money)
    ensures Sub(Add(a, b), b) == a
    ensures Add(Sub(a, b), b) == a
  {
  }

  lemma AddAssociative(a: Money, b: Money, c: Money)
    ensures Add(Add(a, b), c) == Add(a, Add(b, c))
  {
  }

  /** Addition commutes exactly when the currencies agree: the result takes
      the left operand's currency. */
  lemma AddCommutes(a: Money, b: Money)
    ensures Add(a, b) == Add(b, a) <==> a.currency == b.currency
  {
  }

  /** Adding money of another currency is not refused; the currency of the
      right operand is dropped. */
  lemma AddAcrossCurrencies()
    ensures Add(Money(100, "BRL"), Money(100, "USD")) == Money(200, "BRL")
    ensures Add(Money(100, "USD"), Money(100, "BRL")) == Money(200, "USD")
  {
  }

  // ---------------------------------------------------------- multiplication

  /** Multiplying by an integer is exact. */
  lemma MulByInteger(m: Money, k: int)
    ensures Mul(m, IntScalar(k)) == Money(m.cents * k, m.currency)
  {
    var r := Mul(m, IntScalar(k));
    assert IsHalfUpRounding((m.cents * k) as real, r.cents) by {
      RealProduct(m.cents, k);
    }
    HalfUpOfInteger(m.cents * k, r.cents);
  }

  lemma MulByOne(m: Money)
    ensures Mul(m, IntScalar(1)) == m
    ensures RMul(IntScalar(1), m) == m
  {
    MulByInteger(m, 1);
  }

  /** Scaling from the left and from the right give the same money. */
  lemma MulCommutes(m: Money, s: Scalar)
    ensures RMul(s, m) == Mul(m, s)
  {
  }

  /** Integer scaling distributes over addition. */
  lemma MulDistributes(a: Money, b: Money, k: int)
    ensures Mul(Add(a, b), IntScalar(k)) == Add(Mul(a, IntScalar(k)), Mul(b, IntScalar(k)))
  {
    MulByInteger(Add(a, b), k);
    MulByInteger(a, k);
    MulByInteger(b, k);
    assert (a.cents + b.cents) * k == a.cents * k + b.cents * k;
  }

  /** Negating the money negates the product: ties go away from zero. */
  lemma MulNegation(m: Money, s: Scalar)
    ensures Mul(Money(-m.cents, m.currency), s).cents == -Mul(m, s).cents
  {
    var d := ScalarDecimal(s);
    var product := Decimals.Mul(Amount(m), d);
    assert Decimals.Mul(Amount(Money(-m.cents, m.currency)), d) == Decimals.Negate(product) by {
      NegatedCoefficient(m.cents, d.coefficient);
    }
    Decimals.QuantizeNegate(product, DecimalCent.exponent);
  }

  /** For money that is not negative, a larger scalar never gives less. */
  lemma MulMonotone(m: Money, s: Scalar, t: Scalar)
    requires m.cents >= 0
    requires Decimals.Value(ScalarDecimal(s)) <= Decimals.Value(ScalarDecimal(t))
    ensures Mul(m, s).cents <= Mul(m, t).cents
  {
    var a := Amount(m);
    var d, e := ScalarDecimal(s), ScalarDecimal(t);
    NonNegativeAmount(m);
    ProductsOrdered(a, d, e);
    Decimals.QuantizeMonotone(Decimals.Mul(a, d), Decimals.Mul(a, e), DecimalCent.exponent);
  }

  /** 3.33 times one half is 1.665, which rounds up to 1.67. */
  lemma MulRoundsHalfUp()
    ensures Mul(Money(333, "BRL"), DecimalScalar(Decimals.Dec(5, -1))) == Money(167, "BRL")
  {
    var r := Mul(Money(333, "BRL"), DecimalScalar(Decimals.Dec(5, -1)));
    HalfValue();
    assert IsHalfUpRounding(333.0 * 0.5, r.cents);
    HalfUpUnique(333.0 * 0.5, r.cents, 167);
  }

  // ---------------------------------------------------------------- division

  lemma DivByOne(m: Money)
    ensures Div(m, IntScalar(1)) == Ok(m)
  {
    var r := Div(m, IntScalar(1));
    HalfUpOfInteger(m.cents, r.value.cents);
  }

  /** Dividing by the integer just multiplied by gives the money back. */
  lemma DivUndoesMul(m: Money, k: int)
    requires k != 0
    ensures Div(Mul(m, IntScalar(k)), IntScalar(k)) == Ok(m)
  {
    MulByInteger(m, k);
    var q := Div(Money(m.cents * k, m.currency), IntScalar(k)).value.cents;
    ProductOverFactor(m.cents, k);
    HalfUpOfInteger(m.cents, q);
  }

  /** A zero divisor, whatever its exponent, is an error whose kind depends
      only on whether the money is zero. */
  lemma DivByZero(m: Money, exponent: int)
    ensures Div(m, IntScalar(0)) == Err(if m.cents == 0 then Decimals.DivisionUndefined else Decimals.DivisionByZero)
    ensures Div(m, DecimalScalar(Decimals.Dec(0, exponent))) == Div(m, IntScalar(0))
  {
    ZeroValue(Decimals.Dec(0, exponent));
  }

  /** Negating the money negates the quotient. */
  lemma DivNegation(m: Money, s: Scalar)
    requires Decimals.Value(ScalarDecimal(s)) != 0.0
    ensures Div(Money(-m.cents, m.currency), s).value.cents == -Div(m, s).value.cents
  {
    var v := Decimals.Value(ScalarDecimal(s));
    NegatedDividend(m.cents, v);
    RoundingOfNegation(m.cents as real / v, (-m.cents) as real / v,
      Div(m, s).value.cents, Div(Money(-m.cents, m.currency), s).value.cents);
  }

  /** Five cents over two is two and a half cents, which rounds up to three. */
  lemma DivRoundsHalfUp()
    ensures Div(Money(5, "BRL"), IntScalar(2)) == Ok(Money(3, "BRL"))
    ensures Div(Money(-5, "BRL"), IntScalar(2)) == Ok(Money(-3, "BRL"))
  {
    var r := Div(Money(5, "BRL"), IntScalar(2));
    assert IsHalfUpRounding(5.0 / 2.0, r.value.cents);
    HalfUpUnique(5.0 / 2.0, r.value.cents, 3);
    DivNegation(Money(5, "BRL"), IntScalar(2));
  }

  // ---------------------------------------------------------------- ordering

  /** `<` is a strict order on amounts. */
  lemma LtStrictOrder(a: Money, b: Money, c: Money)
    ensures Lt(a, MoneyOperand(a)) == Answer(false)
    ensures Lt(a, MoneyOperand(b)).holds ==> !Lt(b, MoneyOperand(a)).holds
    ensures Lt(a, MoneyOperand(b)).holds && Lt(b, MoneyOperand(c)).holds ==> Lt(a, MoneyOperand(c)).holds
  {
  }

  /** `<=` is reflexive and transitive, even across currencies. */
  lemma LePreorder(a: Money, b: Money, c: Money)
    ensures Le(a, MoneyOperand(a)) == Answer(true)
    ensures Le(a, MoneyOperand(b)).holds && Le(b, MoneyOperand(c)).holds ==> Le(a, MoneyOperand(c)).holds
  {
  }

  /** Within one currency the derived comparisons form one total order,
      the order of the cents: `<=` is total and antisymmetric, `>` and `>=`
      are the converses of `<` and `<=`, and `<=` is not-greater. */
  lemma TotalOrderWithinCurrency(a: Money, b: Money)
    requires a.currency == b.currency
    ensures Le(a, MoneyOperand(b)).holds || Le(b, MoneyOperand(a)).holds
    ensures Le(a, MoneyOperand(b)).holds && Le(b, MoneyOperand(a)).holds ==> a == b
    ensures Gt(a, MoneyOperand(b)) == Lt(b, MoneyOperand(a))
    ensures Ge(a, MoneyOperand(b)) == Le(b, MoneyOperand(a))
    ensures Le(a, MoneyOperand(b)) == Answer(!Gt(a, MoneyOperand(b)).holds)
    ensures Le(a, MoneyOperand(b)) == Answer(a.cents <= b.cents)
  {
  }

  /** Equality needs both the amount and the currency. */
  lemma EqualityNeedsCurrency()
    ensures Eq(Money(100, "BRL"), MoneyOperand(Money(100, "BRL"))) == Answer(true)
    ensures Eq(Money(100, "BRL"), MoneyOperand(Money(100, "USD"))) == Answer(false)
    ensures Ne(Money(100, "BRL"), MoneyOperand(Money(100, "USD"))) == Answer(true)
  {
  }

  /** Five is less than ten, and minus one is less than zero. */
  lemma OrderExamples()
    ensures Lt(Money(500, "BRL"), MoneyOperand(Money(1000, "BRL"))) == Answer(true)
    ensures Lt(Money(-100, "BRL"), MoneyOperand(Zero("BRL"))) == Answer(true)
    ensures Gt(Money(1000, "BRL"), MoneyOperand(Money(500, "BRL"))) == Answer(true)
  {
  }

  /** Comparing with anything but money is not implemented, by every operator. */
  lemma ComparisonWithOther(a: Money)
    ensures Lt(a, OtherOperand) == NotImplemented && Le(a, OtherOperand) == NotImplemented
    ensures Gt(a, OtherOperand) == NotImplemented && Ge(a, OtherOperand) == NotImplemented
    ensures Eq(a, OtherOperand) == NotImplemented
  {
  }

  // ------------------------------------------ derived order across currencies

  /** As written, `>` holds both ways between two moneys exactly when they
      have the same amount in different currencies. */
  lemma GtBothWays(a: Money, b: Money)
    ensures Gt(a, MoneyOperand(b)).holds && Gt(b, MoneyOperand(a)).holds <==>
            a.cents == b.cents && a.currency != b.currency
  {
  }

  /** Equal amounts in different currencies are neither less nor equal,
      so the derived `<=` fails both ways. */
  lemma IncomparableAcrossCurrencies(a: Money, b: Money)
    requires a.cents == b.cents && a.currency != b.currency
    ensures Lt(a, MoneyOperand(b)) == Answer(false) && Eq(a, MoneyOperand(b)) == Answer(false)
    ensures Le(a, MoneyOperand(b)) == Answer(false) && Le(b, MoneyOperand(a)) == Answer(false)
  {
  }

  /** The concrete case: 100.00 BRL and 100.00 USD are each greater than the
      other, and `>=` holds one way while the converse `<=` does not. */
  lemma CrossCurrencyOrder()
    ensures Gt(Money(10000, "BRL"), MoneyOperand(Money(10000, "USD"))) == Answer(true)
    ensures Gt(Money(10000, "USD"), MoneyOperand(Money(10000, "BRL"))) == Answer(true)
    ensures Ge(Money(10000, "BRL"), MoneyOperand(Money(10000, "USD"))) == Answer(true)
    ensures Le(Money(10000, "USD"), MoneyOperand(Money(10000, "BRL"))) == Answer(false)
  {
  }

  /** Ordered by amount alone, `>` is asymmetric, `<=` is total, and `>=`
      and `<=` are converses, in every pair of currencies; within one
      currency the amount-only operators agree with the derived ones. */
  lemma AmountOrderIsConsistent(a: Money, b: Money)
    ensures !(GtByAmount(a, MoneyOperand(b)).holds && GtByAmount(b, MoneyOperand(a)).holds)
    ensures LeByAmount(a, MoneyOperand(b)).holds || LeByAmount(b, MoneyOperand(a)).holds
    ensures Ge(a, MoneyOperand(b)) == LeByAmount(b, MoneyOperand(a))
    ensures GtByAmount(a, MoneyOperand(b)) == Lt(b, MoneyOperand(a))
    ensures a.currency == b.currency ==>
              GtByAmount(a, MoneyOperand(b)) == Gt(a, MoneyOperand(b)) &&
              LeByAmount(a, MoneyOperand(b)) == Le(a, MoneyOperand(b))
  {
  }

  // ------------------------------------------------------------------ helpers

  /** A numeral with three decimals, rounded to the cent. */
  lemma ThousandthsRounding(c: int, cents: int)
    requires IsHalfUpRounding(c as real / 10.0, cents)
    ensures OfDecimal(Decimals.Dec(c, -3), BaseCurrency) == Money(cents, "BRL")
  {
    var r := OfDecimal(Decimals.Dec(c, -3), BaseCurrency);
    assert Decimals.Scale(-3) == 0.001 by {
      Decimals.ScaleOfNegative(-3);
      assert Pow10(3) == 1000;
    }
    assert Decimals.Value(Decimals.Dec(c, -3)) * 100.0 == c as real / 10.0 by {
      Decimals.ValueOf(c, -3);
    }
    HalfUpUnique(c as real / 10.0, cents, r.cents);
  }

  lemma HalfCentText()
    ensures New(TextAmount("0.005"), BaseCurrency) == Ok(OfDecimal(Decimals.Dec(5, -3), BaseCurrency))
  {
    assert Decimals.DigitsValue(DecimalText.DigitsOf("0") + DecimalText.DigitsOf("005")) == 5 by {
      SpelledDigits("0", "005", [0, 0, 0, 5]);
      Digits4(0, 0, 0, 5);
    }
    assert DecimalText.Spell(false, "0", "005") == "0.005";
    NewOfNumeral(false, "0", "005", BaseCurrency);
  }

  lemma NegativeHalfCentText()
    ensures New(TextAmount("-0.005"), BaseCurrency) == Ok(OfDecimal(Decimals.Dec(-5, -3), BaseCurrency))
  {
    assert Decimals.DigitsValue(DecimalText.DigitsOf("0") + DecimalText.DigitsOf("005")) == 5 by {
      SpelledDigits("0", "005", [0, 0, 0, 5]);
      Digits4(0, 0, 0, 5);
    }
    assert DecimalText.Spell(true, "0", "005") == "-0.005";
    NewOfNumeral(true, "0", "005", BaseCurrency);
  }

  lemma BelowHalfText()
    ensures New(TextAmount("1.004"), BaseCurrency) == Ok(OfDecimal(Decimals.Dec(1004, -3), BaseCurrency))
  {
    assert Decimals.DigitsValue(DecimalText.DigitsOf("1") + DecimalText.DigitsOf("004")) == 1004 by {
      SpelledDigits("1", "004", [1, 0, 0, 4]);
      Digits4(1, 0, 0, 4);
    }
    assert DecimalText.Spell(false, "1", "004") == "1.004";
    NewOfNumeral(false, "1", "004", BaseCurrency);
  }

  lemma HalfText()
    ensures New(TextAmount("1.005"), BaseCurrency) == Ok(OfDecimal(Decimals.Dec(1005, -3), BaseCurrency))
  {
    assert Decimals.DigitsValue(DecimalText.DigitsOf("1") + DecimalText.DigitsOf("005")) == 1005 by {
      SpelledDigits("1", "005", [1, 0, 0, 5]);
      Digits4(1, 0, 0, 5);
    }
    assert DecimalText.Spell(false, "1", "005") == "1.005";
    NewOfNumeral(false, "1", "005", BaseCurrency);
  }

  lemma CarryText()
    ensures New(TextAmount("19.999"), BaseCurrency) == Ok(OfDecimal(Decimals.Dec(19999, -3), BaseCurrency))
  {
    assert Decimals.DigitsValue(DecimalText.DigitsOf("19") + DecimalText.DigitsOf("999")) == 19999 by {
      SpelledDigits("19", "999", [1, 9, 9, 9, 9]);
      Digits5(1, 9, 9, 9, 9);
    }
    assert DecimalText.Spell(false, "19", "999") == "19.999";
    NewOfNumeral(false, "19", "999", BaseCurrency);
  }

  lemma SpelledDigits(w: string, f: string, digits: seq<int>)
    requires DecimalText.AllDigitChars(w) && DecimalText.AllDigitChars(f)
    requires |digits| == |w| + |f|
    requires forall i :: 0 <= i < |w| ==> digits[i] == DecimalText.DigitOfChar(w[i])
    requires forall i :: 0 <= i < |f| ==> digits[|w| + i] == DecimalText.DigitOfChar(f[i])
    ensures DecimalText.DigitsOf(w) + DecimalText.DigitsOf(f) == digits
  {
  }

  lemma Digits4(a: int, b: int, c: int, d: int)
    ensures Decimals.DigitsValue([a, b, c, d]) == ((a * 10 + b) * 10 + c) * 10 + d
  {
    assert [a][..0] == [];
    assert Decimals.DigitsValue([a]) == a;
    assert [a, b][..1] == [a];
    assert Decimals.DigitsValue([a, b]) == a * 10 + b;
    assert [a, b, c][..2] == [a, b];
    assert Decimals.DigitsValue([a, b, c]) == (a * 10 + b) * 10 + c;
    assert [a, b, c, d][..3] == [a, b, c];
  }

  lemma Digits5(a: int, b: int, c: int, d: int, e: int)
    ensures Decimals.DigitsValue([a, b, c, d, e]) == (((a * 10 + b) * 10 + c) * 10 + d) * 10 + e
  {
    assert [a, b, c, d, e][..4] == [a, b, c, d];
    Digits4(a, b, c, d);
  }

  /** Two values that are each other's negation round to negated integers. */
  lemma RoundingOfNegation(x: real, y: real, c: int, n: int)
    requires y == -x
    requires IsHalfUpRounding(x, c) && IsHalfUpRounding(y, n)
    ensures n == -c
  {
    HalfUpNegate(x, c);
    HalfUpUnique(y, n, -c);
  }

  lemma NegatedCoefficient(c: int, k: int)
    ensures (-c) * k == -(c * k)
  {
  }

  lemma NonNegativeAmount(m: Money)
    requires m.cents >= 0
    ensures Decimals.Value(Amount(m)) >= 0.0
  {
  }

  /** Scaling by a value that is not negative preserves order. */
  lemma ProductsOrdered(a: Decimals.Dec, d: Decimals.Dec, e: Decimals.Dec)
    requires Decimals.Value(a) >= 0.0
    requires Decimals.Value(d) <= Decimals.Value(e)
    ensures Decimals.Value(Decimals.Mul(a, d)) <= Decimals.Value(Decimals.Mul(a, e))
  {
    ScaledOrder(Decimals.Value(a), Decimals.Value(d), Decimals.Value(e));
  }

  lemma NegatedDividend(a: int, v: real)
    requires v != 0.0
    ensures (-a) as real / v == -(a as real / v)
  {
  }

  lemma ProductOverFactor(a: int, k: int)
    requires k != 0
    ensures (a * k) as real / k as real == a as real
  {
    RealProduct(a, k);
    QuotientOfProduct(a as real, k as real);
  }

  lemma ScaledOrder(c: real, x: real, y: real)
    requires c >= 0.0 && x <= y
    ensures c * x <= c * y
  {
  }

  lemma HalfValue()
    ensures Decimals.Value(Decimals.Dec(5, -1)) == 0.5
  {
    Decimals.ValueOf(5, -1);
    Decimals.ScaleOfNegative(-1);
  }
}
