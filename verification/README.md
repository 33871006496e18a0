# Money: a verified model of `mcduck/core/models.py`

`Money` is mcduck's immutable, currency-tagged monetary value. A raw amount
(an exact decimal, a numeral, or a `(sign, digits, exponent)` tuple) is
converted to a `Decimal` and quantized to the cent (`DECIMAL_CENT`, `0.01`)
with `ROUND_HALF_UP`. Every arithmetic operator builds its result through the
same constructor, so each result is re-quantized. `<` compares amounts only;
`functools.total_ordering` derives `<=`, `>` and `>=` from `<` and from the
dataclass's `==`, which compares `(amount, currency)`.

The model keeps an amount as its integer number of cents: `Money(cents,
currency)` denotes `cents × 10^-2` of `currency`. The decimal arithmetic the
class relies on is modelled as exact, unbounded arithmetic on finite
decimals (the 28-digit context is left out, see below):

- `Rounding`: half-up rounding. A reference predicate on the reals says
  which integer a value rounds to, ties going away from zero. An integer
  implementation is proved to agree with it.
- `Decimals`: finite decimals `Dec(coefficient, exponent)` and their exact
  real value. It covers addition, subtraction, multiplication and
  comparison, quantization, quantization of an exact quotient, and the tuple
  form.
- `DecimalText`: the numerals
  `[sign] (digits [. [digits]] | . digits) [(e | E) [sign] digits]`, where a
  sign is `+` or `-`. So `5.` and `.5` are numerals and `.` is not. It also
  gives the plain numeral of an amount.
- `Models`: `Money`, its constructor, `zero`, the operators, and the
  comparisons as written. It also holds corrected amount-only `>` and `<=`.
- `MoneyLaws`: the laws the operations obey together, plus concrete cases.

Errors are those of Python's `decimal` module. A numeral that is not a
number fails with `ConversionSyntax`, an `InvalidOperation`. A tuple fails
with a bad sign, checked first, or else with a bad digit; Python raises
`ValueError` for both. A non-zero amount over zero is `DivisionByZero`.
Zero over zero is `DivisionUndefined`, an `InvalidOperation`. All of these
are error values of a `Result`; none is a precondition.

## Model

| member | source | states |
|---|---|---|
| `Rounding.RoundHalfUp` | mcduck/core/models.py:24-26 | The integer rounding of `n / d` is a half-up rounding of the exact quotient, ties away from zero. |
| `Rounding.RoundHalfUpIff` | mcduck/core/models.py:24-26 | An integer equals the computed rounding exactly when it is the half-up rounding of the quotient: the rounding is unique. |
| `Rounding.HalfUpNegate` | mcduck/core/models.py:25 | Half-up rounding is symmetric about zero: `-x` rounds to `-c` exactly when `x` rounds to `c`. |
| `Rounding.HalfUpMonotone` | mcduck/core/models.py:25 | Half-up rounding never reverses the order of two values. |
| `Decimals.FromTuple` | mcduck/core/models.py:13 | A tuple converts exactly when its sign is 0 or 1 and every digit is in 0..9. A bad sign is reported before bad digits. The decimal it converts to is worth the number its digits spell, negated for sign 1, times ten to the exponent, and keeps that exponent. |
| `Decimals.TupleRoundTrip` | mcduck/core/models.py:13 | A decimal's sign/digits/exponent tuple converts back to the same decimal. |
| `Decimals.CanonicalTupleRoundTrip` | mcduck/core/models.py:13 | A tuple with no leading zero digit, and sign 0 when it spells zero, converts to a decimal whose own tuple is the same tuple. |
| `Decimals.TupleLeadingZeros` | mcduck/core/models.py:13 | Leading zero digits in a tuple change neither whether it converts nor its value. |
| `Decimals.Add` | mcduck/core/models.py:30 | The exact sum: the result's value is the sum of the values, at the smaller exponent. |
| `Decimals.Sub` | mcduck/core/models.py:33 | The exact difference: the result's value is the difference of the values, at the smaller exponent. |
| `Decimals.Mul` | mcduck/core/models.py:36 | The exact product: the result's value is the product of the values, and the exponents add. |
| `Decimals.Less` | mcduck/core/models.py:46 | Decimals compare by value, whatever their exponents. |
| `Decimals.Equal` | mcduck/core/models.py:16 | Decimals are equal exactly when their values are, so `1.0` equals `1.00`. |
| `Decimals.Quantize` | mcduck/core/models.py:24-26 | The result has the target exponent. Its coefficient is the value, counted in units of that exponent, rounded half up. |
| `Decimals.QuantizeIff` | mcduck/core/models.py:24-26 | Quantization picks the one coefficient that is the half-up rounding of the value: both directions. |
| `Decimals.QuantizeIdempotent` | mcduck/core/models.py:24-26 | Quantizing twice to the same exponent is quantizing once. |
| `Decimals.QuantizeExact` | mcduck/core/models.py:24-26 | A value that is a whole number of units quantizes to that number, with no rounding error. |
| `Decimals.QuantizeNegate` | mcduck/core/models.py:24-26 | Quantizing the negation gives the negated result. |
| `Decimals.QuantizeMonotone` | mcduck/core/models.py:24-26 | Quantization preserves the order of values. |
| `Decimals.QuantizeQuotient` | mcduck/core/models.py:41 | For a non-zero divisor, the coefficient is the exact quotient, counted in units of the target exponent, rounded half up. |
| `DecimalText.Parse` | mcduck/core/models.py:24 | A numeral that does not convert fails with a conversion-syntax error and no other error. |
| `DecimalText.ParseSpelled` | mcduck/core/models.py:24 | A numeral of digits, an optional fraction and an optional minus sign converts to the decimal its digits spell. The exponent is minus the number of fraction digits. |
| `DecimalText.ParseInteger` | mcduck/core/models.py:24 | A numeral of digits alone converts to that integer with exponent zero. |
| `DecimalText.FormatPlainRoundTrip` | mcduck/core/models.py:24 | The plain numeral of `c × 10^-places` converts back to exactly that decimal. |
| `DecimalText.ParseZeroCents` | mcduck/core/models.py:50 | `"0.00"` converts to zero with exponent −2. |
| `DecimalText.ParseEmpty` | mcduck/core/models.py:24 | The empty numeral is refused. |
| `DecimalText.ParseLonePoint` | mcduck/core/models.py:24 | A numeral of a point and no digits is refused. |
| `DecimalText.ParseTwoPoints` | mcduck/core/models.py:24 | A numeral with two decimal points is refused. |
| `DecimalText.ParseMissingExponent` | mcduck/core/models.py:24 | A numeral with an exponent marker and no exponent digits is refused. |
| `DecimalText.ParseDoubleSign` | mcduck/core/models.py:24 | A numeral with two signs is refused. |
| `Models.Amount` | mcduck/core/models.py:9 | An amount has the exponent of `DECIMAL_CENT` and is worth the cents over a hundred. |
| `Models.ToDecimal` | mcduck/core/models.py:24 | A decimal passes unchanged. A tuple converts exactly when its sign and digits are valid. |
| `Models.ScalarDecimal` | mcduck/core/models.py:36 | An integer scalar converts to a decimal worth that integer. |
| `Models.OfDecimal` | mcduck/core/models.py:23-27 | The currency is kept. The cents are the half-up rounding of the decimal's value counted in cents. |
| `Models.New` | mcduck/core/models.py:23-27 | Construction succeeds exactly when the raw amount converts, and otherwise reports the conversion's error. On success the currency is kept and the cents are the half-up rounding of the value in cents. |
| `Models.Zero` | mcduck/core/models.py:48-50 | `zero` is zero cents in the given currency. |
| `Models.Add` | mcduck/core/models.py:29-30 | The sum is exact, with no rounding, and takes the left operand's currency. |
| `Models.Sub` | mcduck/core/models.py:32-33 | The difference is exact and takes the left operand's currency. |
| `Models.Mul` | mcduck/core/models.py:35-36 | The product in cents is the cents times the scalar, rounded half up. The currency is kept. |
| `Models.RMul` | mcduck/core/models.py:38 | `s * m` keeps the money's currency, and its cents are the scalar times the cents, rounded half up. |
| `MoneyLaws.MulCommutes` | mcduck/core/models.py:35-38 | `s * m` is the same money as `m * s`. |
| `Models.Div` | mcduck/core/models.py:40-41 | A zero divisor is an error: division by zero for a non-zero amount, undefined for a zero amount. Otherwise the quotient in cents is the cents over the scalar, rounded half up, in the same currency. |
| `Models.Lt` | mcduck/core/models.py:43-46 | `<` compares the cents only, and is not implemented for an operand that is not money. |
| `Models.Eq` | mcduck/core/models.py:16-21 | `==` holds exactly when both the amount and the currency agree. It is not implemented for an operand that is not money. |
| `Models.Ne` | mcduck/core/models.py:16-21 | `!=` is the negation of `==` for money. |
| `Models.Gt` | mcduck/core/models.py:16-17 | The derived `>` holds when the amount is larger, and also when the amounts are equal and the currencies differ. |
| `Models.Le` | mcduck/core/models.py:16-17 | The derived `<=` holds when the amount is smaller, or when amount and currency are both equal. |
| `Models.Ge` | mcduck/core/models.py:16-17 | The derived `>=` holds exactly when the amount is not smaller. |
| `Models.GtByAmount` | mcduck/core/models.py:43-46 | Amount-only `>` holds exactly when the other amount is smaller. |
| `Models.LeByAmount` | mcduck/core/models.py:43-46 | Amount-only `<=` holds exactly when the amount is not larger. |
| `MoneyLaws.NewIsRounding` | mcduck/core/models.py:23-27 | Construction from a decimal yields given money exactly when that money has the currency and its cents are the half-up rounding of the value in cents. |
| `MoneyLaws.NewOfOwnAmount` | mcduck/core/models.py:24-27 | Rebuilding money from its own amount and currency gives it back. |
| `MoneyLaws.TextRoundTrip` | mcduck/core/models.py:24-27 | Money built from its amount's plain numeral is the same money. |
| `MoneyLaws.AmountTupleRoundTrip` | mcduck/core/models.py:24-27 | Money built from its amount's tuple is the same money. |
| `MoneyLaws.NewOfWholeCents` | mcduck/core/models.py:24-27 | A decimal worth a whole number of cents is taken without rounding. |
| `MoneyLaws.NewOfNegation` | mcduck/core/models.py:24-27 | Constructing from a negated decimal negates the cents. |
| `MoneyLaws.NewMonotone` | mcduck/core/models.py:24-27 | A larger decimal never constructs fewer cents. |
| `MoneyLaws.NewOfNumeral` | mcduck/core/models.py:23-27 | A signed digits-and-fraction numeral constructs the money of the decimal it spells. |
| `MoneyLaws.HalfCentRoundsUp` | mcduck/core/models.py:24-26 | `"0.005"` makes one cent. |
| `MoneyLaws.NegativeHalfCentRoundsDown` | mcduck/core/models.py:24-26 | `"-0.005"` makes minus one cent. |
| `MoneyLaws.BelowHalfRoundsDown` | mcduck/core/models.py:24-26 | `"1.004"` makes 1.00. |
| `MoneyLaws.HalfRoundsUp` | mcduck/core/models.py:24-26 | `"1.005"` makes 1.01. |
| `MoneyLaws.CarryIntoUnits` | mcduck/core/models.py:24-26 | `"19.999"` makes 20.00. |
| `MoneyLaws.RejectsBadText` | mcduck/core/models.py:24 | The numerals `"1.2.3"` and `""` are refused with a conversion-syntax error. |
| `MoneyLaws.RejectsBadTuple` | mcduck/core/models.py:24 | A tuple with sign 2 is refused for its sign. A tuple with the digit 10 is refused for its digits. |
| `MoneyLaws.ZeroOfBaseCurrency` | mcduck/core/models.py:10 | The default zero is 0.00 BRL, the money the numeral `"0.00"` constructs. |
| `MoneyLaws.AddZero` | mcduck/core/models.py:29-33 | Zero of any currency is a right identity of `+` and `-`. Zero on the left gives its own currency. |
| `MoneyLaws.SubSelf` | mcduck/core/models.py:32-33 | `m - m` is zero of `m`'s currency. |
| `MoneyLaws.AddSubInverse` | mcduck/core/models.py:29-33 | `-` undoes `+`, and `+` undoes `-`. |
| `MoneyLaws.AddAssociative` | mcduck/core/models.py:29-30 | `+` is associative. |
| `MoneyLaws.AddCommutes` | mcduck/core/models.py:29-30 | `+` commutes exactly when the currencies agree. |
| `MoneyLaws.AddAcrossCurrencies` | mcduck/core/models.py:29-30 | 1.00 BRL + 1.00 USD is 2.00 BRL, and the other order gives USD. |
| `MoneyLaws.MulByInteger` | mcduck/core/models.py:35-36 | Multiplying by an integer is exact. |
| `MoneyLaws.MulByOne` | mcduck/core/models.py:35-38 | `m * 1` and `1 * m` are `m`. |
| `MoneyLaws.MulDistributes` | mcduck/core/models.py:29-36 | Integer scaling distributes over `+`. |
| `MoneyLaws.MulNegation` | mcduck/core/models.py:35-36 | Negating the money negates the product, ties included. |
| `MoneyLaws.MulMonotone` | mcduck/core/models.py:35-36 | For money that is not negative, a larger scalar never gives less. |
| `MoneyLaws.MulRoundsHalfUp` | mcduck/core/models.py:35-36 | 3.33 × 0.5 is 1.67. |
| `MoneyLaws.DivByOne` | mcduck/core/models.py:40-41 | `m / 1` is `m`. |
| `MoneyLaws.DivUndoesMul` | mcduck/core/models.py:35-41 | For a non-zero integer `k`, `(m * k) / k` is `m`. |
| `MoneyLaws.DivByZero` | mcduck/core/models.py:40-41 | A zero divisor of any exponent gives the error: undefined for zero money, division by zero otherwise. |
| `MoneyLaws.DivNegation` | mcduck/core/models.py:40-41 | Negating the money negates the quotient. |
| `MoneyLaws.DivRoundsHalfUp` | mcduck/core/models.py:40-41 | 0.05 / 2 is 0.03, and −0.05 / 2 is −0.03. |
| `MoneyLaws.LtStrictOrder` | mcduck/core/models.py:43-46 | `<` is irreflexive, asymmetric and transitive. |
| `MoneyLaws.LePreorder` | mcduck/core/models.py:16-17 | The derived `<=` is reflexive and transitive. |
| `MoneyLaws.TotalOrderWithinCurrency` | mcduck/core/models.py:16-17 | Within one currency, `<=` is total and antisymmetric and agrees with the cents. `>` and `>=` are the converses of `<` and `<=`. |
| `MoneyLaws.EqualityNeedsCurrency` | mcduck/core/models.py:16-21 | 1.00 BRL equals 1.00 BRL but not 1.00 USD. |
| `MoneyLaws.OrderExamples` | mcduck/core/models.py:43-50 | 5.00 < 10.00, −1.00 < zero, and 10.00 > 5.00. |
| `MoneyLaws.ComparisonWithOther` | mcduck/core/models.py:43-46 | Every comparison with an operand that is not money is not implemented. |
| `MoneyLaws.IncomparableAcrossCurrencies` | mcduck/core/models.py:16-17 | Equal amounts in different currencies are neither `<` nor `==`, so `<=` fails both ways. |
| `MoneyLaws.GtBothWays` | mcduck/core/models.py:16-17 | As written, `>` holds both ways between two moneys exactly when the amounts are equal and the currencies differ. |
| `MoneyLaws.CrossCurrencyOrder` | mcduck/core/models.py:16-17 | 100.00 BRL and 100.00 USD are each `>` the other, and `>=` holds one way while the converse `<=` does not. |
| `MoneyLaws.AmountOrderIsConsistent` | mcduck/core/models.py:43-46 | Amount-only `>` is asymmetric and `<=` is total for any currencies. `>=` and amount-only `<=` are converses. Within one currency, the amount-only operators agree with the derived ones. |

## Left out

- Construction from a `float`: the exact binary expansion of a double is not modelled. The raw amount is an exact decimal, a numeral or a tuple.
- The decimal context: 28-digit precision, overflow and signals. Arithmetic is exact and unbounded.
- Models.Div: Python rounds the quotient to 28 significant digits before quantizing. The model rounds the exact quotient once. The two differ only on quotients that have more than 28 significant digits.
- Models.Mul: the product is exact. Python rounds a product of more than 28 significant digits to the context before quantizing.
- DecimalText.Parse: the numeral syntax covers signs, digits, one point and an exponent. It leaves out `NaN`, `Infinity`, surrounding whitespace, underscores and non-ASCII digits.
- Signed zero: `-0.00` is zero cents. Python keeps the sign, but `==` and the ordering cannot see it.
- Operator dispatch after `NotImplemented`: when both sides of `<`, `<=`, `>` or `>=` return it, Python raises `TypeError`. For `==` and `!=` it falls back to identity, so `m == 5` is `False` and `m != 5` is `True`. The model stops at `NotImplemented`.
- Operands of the wrong type for `+`, `-`, `*` and `/`. `m + 5` and `m - 5` raise `AttributeError`, because `other.amount` is read. `m * m` and `m / m` raise `TypeError` from `Decimal(scalar)`. These failures are not modelled.
- Float and string scalars: `Decimal(scalar)` also accepts them, so `m * 1.5` and `m * "2"` succeed in Python. `Models.Scalar` holds only integers and exact decimals.
- Non-finite decimals as raw amounts or scalars. A quiet `Decimal("NaN")` (or `float("nan")`) passes `quantize` unchanged, so Python builds money whose amount is NaN with no error. `Decimal("Infinity")` as a raw amount raises `InvalidOperation` in `quantize`, and so does a product or quotient that is infinite. `Decimals.Dec` is finite, so the model has none of these values.
- The dataclass machinery (`InitVar`, `object.__setattr__`, `frozen`) and default arguments. The datatype is immutable. `BASE_CURRENCY` is passed explicitly.
- `str()` of an amount uses scientific notation only for exponents an amount never has. `DecimalText.FormatPlain` gives the plain form.

## Findings

| source | as written | input that shows it | evidently intended | confidence | as-written member | corrected member |
|---|---|---|---|---|---|---|
| mcduck/core/models.py:16-17 | `total_ordering` derives `a > b` as `not a < b and a != b`, and `a <= b` as `a < b or a == b`. The `==` they use compares currencies. | `Money("100", "BRL")` and `Money("100", "USD")`: `a > b` and `b > a` both hold, and `a >= b` holds while `b <= a` does not. | `>` and `<=` compare amounts only, like `<`. Then `>` is asymmetric and `<=` is the converse of `>=`. | not executed | `MoneyLaws.GtBothWays` | `MoneyLaws.AmountOrderIsConsistent` |
