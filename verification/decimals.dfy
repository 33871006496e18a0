/** Finite exact decimals in the style of Python's `decimal.Decimal`, limited
    to what the monetary value type relies on: construction from a
    sign/digits/exponent tuple, exact addition, subtraction and
    multiplication, numeric comparison, and quantization to a fixed exponent
    with round-half-up. Arithmetic is unbounded: the precision of the decimal
    context is not modelled. */
module Decimals {
  import opened Rounding
  import opened Results
  import opened RealFacts

  /** The value `coefficient × 10^exponent`. The sign lives in the
      coefficient, so a negative zero is not distinguished from zero. */
  datatype Dec = Dec(coefficient: int, exponent: int)

  /** The conditions under which the `decimal` module raises. */
  datatype DecimalError =
    | ConversionSyntax      // a string that is not a decimal numeral
    | InvalidTupleSign      // a tuple whose sign is neither 0 nor 1
    | InvalidTupleDigit     // a tuple digit outside 0 through 9
    | DivisionByZero        // a non-zero dividend divided by zero
    | DivisionUndefined     // zero divided by zero

  /** `10^e` as an exact rational, for any integer `e`. */
  function Scale(e: int): (r: real)
    ensures r > 0.0
  {
    Pow10(if e >= 0 then e else 0) as real / Pow10(if e >= 0 then 0 else -e) as real
  }

  /** The exact rational value a decimal denotes. */
  ghost function Value(d: Dec): real {
    d.coefficient as real * Scale(d.exponent)
  }

  lemma ScaleOfNat(n: nat)
    ensures Scale(n) == Pow10(n) as real
  {
  }

  lemma ScaleOfNegative(e: int)
    requires e <= 0
    ensures Scale(e) == 1.0 / Pow10(-e) as real
  {
  }

  lemma PowerSum(a: nat, b: nat)
    ensures Pow10(a + b) as real == Pow10(a) as real * Pow10(b) as real
  {
    Pow10Add(a, b);
    RealProduct(Pow10(a), Pow10(b));
  }

  lemma PowerSplit(a: nat, b: nat, c: nat)
    requires c == a + b
    ensures Pow10(c) as real == Pow10(a) as real * Pow10(b) as real
  {
    PowerSum(a, b);
  }

  lemma ScaleBothNat(x: int, y: int, z: int)
    requires x >= 0 && y >= 0 && z == x + y
    ensures Scale(z) == Scale(x) * Scale(y)
  {
    PowerSplit(x, y, z);
  }

  lemma ScaleBothNegative(x: int, y: int, z: int)
    requires x < 0 && y < 0 && z == x + y
    ensures Scale(z) == Scale(x) * Scale(y)
  {
    var px, py, pz := Pow10(-x), Pow10(-y), Pow10(-z);
    Pow10Add(-x, -y);
    NegativeScales(x, y, z, px, py, pz);
  }

  lemma NegativeScales(x: int, y: int, z: int, px: nat, py: nat, pz: nat)
    requires x < 0 && y < 0 && z < 0
    requires px == Pow10(-x) && py == Pow10(-y) && pz == Pow10(-z)
    requires pz == px * py
    ensures Scale(z) == Scale(x) * Scale(y)
  {
    RealProduct(px, py);
    ReciprocalCore(px as real, py as real, pz as real, Scale(x), Scale(y), Scale(z));
  }

  lemma ReciprocalCore(p: real, q: real, r: real, sp: real, sq: real, sr: real)
    requires p > 0.0 && q > 0.0 && r == p * q
    requires sp == 1.0 / p && sq == 1.0 / q && sr == 1.0 / r
    ensures sr == sp * sq
  {
    ReciprocalOfProduct(p, q);
  }

  lemma ScaleMixedQuotient(x: int, y: int)
    requires x >= 0 > y
    ensures Scale(x) * Scale(y) == Pow10(x) as real / Pow10(-y) as real
  {
    QuotientOfProduct(Pow10(x) as real, Pow10(-y) as real);
  }

  lemma ScaleMixedUp(x: int, y: int, z: int)
    requires x >= 0 > y && z == x + y && z >= 0
    ensures Scale(z) == Scale(x) * Scale(y)
  {
    ScaleMixedQuotient(x, y);
    PowerSplit(z, -y, x);
    QuotientOfProduct(Pow10(z) as real, Pow10(-y) as real);
  }

  lemma ScaleMixedDown(x: int, y: int, z: int)
    requires x >= 0 > y && z == x + y && z < 0
    ensures Scale(z) == Scale(x) * Scale(y)
  {
    var p, q := Pow10(x) as real, Pow10(-z) as real;
    assert Pow10(-y) as real == p * q by { PowerSplit(x, -z, -y); }
    assert p / (p * q) == 1.0 / q by { ReciprocalOfProduct(p, q); }
    ScaleMixedQuotient(x, y);
  }

  lemma ProductCommutes(a: real, b: real)
    ensures a * b == b * a
  {
  }

  /** Scales multiply as their exponents add. */
  lemma ScaleAdd(x: int, y: int, z: int)
    requires z == x + y
    ensures Scale(z) == Scale(x) * Scale(y)
  {
    if x >= 0 && y >= 0 {
      ScaleBothNat(x, y, z);
    } else if x < 0 && y < 0 {
      ScaleBothNegative(x, y, z);
    } else if x >= 0 {
      if z >= 0 { ScaleMixedUp(x, y, z); } else { ScaleMixedDown(x, y, z); }
    } else {
      if z >= 0 { ScaleMixedUp(y, x, z); } else { ScaleMixedDown(y, x, z); }
      ProductCommutes(Scale(x), Scale(y));
    }
  }

  /** An integer multiple of a power of ten, as a real. */
  lemma IntegerTimesPower(c: int, k: nat)
    ensures (c * Pow10(k)) as real == c as real * Scale(k)
  {
    RealProduct(c, Pow10(k));
  }

  lemma MultipleOfPower(c: int, k: nat, q: int)
    requires q == c * Pow10(k)
    ensures q as real == c as real * Scale(k)
  {
    IntegerTimesPower(c, k);
  }

  lemma ValueOf(c: int, e: int)
    ensures Value(Dec(c, e)) == c as real * Scale(e)
  {
  }

  lemma ValueOfShifted(c: int, e: int, k: nat)
    ensures Value(Dec(c * Pow10(k), e)) == c as real * Scale(k) * Scale(e)
  {
    IntegerTimesPower(c, k);
    ValueOfMultiple(c * Pow10(k), c as real * Scale(k), e);
  }

  lemma ValueOfMultiple(q: int, x: real, e: int)
    requires q as real == x
    ensures Value(Dec(q, e)) == x * Scale(e)
  {
  }

  lemma ValueOfRaised(c: int, e: int, k: nat, e': int)
    requires e' == e + k
    ensures Value(Dec(c, e')) == c as real * (Scale(e) * Scale(k))
  {
    ScaleAdd(e, k, e');
    MulEq(c as real, Scale(e'), Scale(e) * Scale(k));
  }

  /** Multiplying the coefficient by `10^k` is the same as raising the
      exponent by `k`. */
  lemma ValueShift(c: int, e: int, k: nat, e': int)
    requires e' == e + k
    ensures Value(Dec(c * Pow10(k), e)) == Value(Dec(c, e'))
  {
    ValueOfShifted(c, e, k);
    ValueOfRaised(c, e, k, e');
  }

  // ---------------------------------------------------------------- digits

  predicate IsDigits(ds: seq<int>) {
    forall i :: 0 <= i < |ds| ==> 0 <= ds[i] <= 9
  }

  /** The number a most-significant-first digit sequence spells. */
  function DigitsValue(ds: seq<int>): int {
    if |ds| == 0 then 0 else DigitsValue(ds[..|ds| - 1]) * 10 + ds[|ds| - 1]
  }

  /** The shortest digit sequence of `n`; zero is written as the single digit 0. */
  function ToDigits(n: nat): (ds: seq<int>)
    ensures IsDigits(ds) && |ds| >= 1
    ensures |ds| > 1 ==> ds[0] != 0
  {
    if n < 10 then [n] else ToDigits(n / 10) + [n % 10]
  }

  lemma {:induction false} DigitsValueNonNegative(ds: seq<int>)
    requires IsDigits(ds)
    ensures 0 <= DigitsValue(ds) < Pow10(|ds|)
  {
    if |ds| != 0 {
      var init := ds[..|ds| - 1];
      assert IsDigits(init) by {
        forall i | 0 <= i < |init| ensures 0 <= init[i] <= 9 {
          assert init[i] == ds[i];
        }
      }
      DigitsValueNonNegative(init);
      assert DigitsValue(init) + 1 <= Pow10(|init|);
      assert DigitsValue(ds) < DigitsValue(init) * 10 + 10;
    }
  }

  lemma DigitsNotNegative(ds: seq<int>)
    requires IsDigits(ds)
    ensures DigitsValue(ds) >= 0
  {
    DigitsValueNonNegative(ds);
  }

  lemma {:induction false} ToDigitsRoundTrip(n: nat)
    ensures DigitsValue(ToDigits(n)) == n
  {
    if n >= 10 {
      var ds := ToDigits(n);
      assert ds[..|ds| - 1] == ToDigits(n / 10);
      ToDigitsRoundTrip(n / 10);
    }
  }

  /** Spelling a concatenation: the leading part is shifted by the length of
      the trailing part. */
  lemma {:induction false} DigitsValueAppend(a: seq<int>, b: seq<int>)
    ensures DigitsValue(a + b) == DigitsValue(a) * Pow10(|b|) + DigitsValue(b)
  {
    if |b| == 0 {
      assert a + b == a;
    } else {
      var b' := b[..|b| - 1];
      assert (a + b)[..|a + b| - 1] == a + b';
      DigitsValueAppend(a, b');
      calc {
        DigitsValue(a + b);
        DigitsValue(a + b') * 10 + b[|b| - 1];
        (DigitsValue(a) * Pow10(|b'|) + DigitsValue(b')) * 10 + b[|b| - 1];
        DigitsValue(a) * (Pow10(|b'|) * 10) + (DigitsValue(b') * 10 + b[|b| - 1]);
        DigitsValue(a) * Pow10(|b|) + DigitsValue(b);
      }
    }
  }

  /** Leading zero digits do not change the number spelled. */
  lemma LeadingZeros(zs: seq<int>, ds: seq<int>)
    requires forall i :: 0 <= i < |zs| ==> zs[i] == 0
    ensures DigitsValue(zs + ds) == DigitsValue(ds)
  {
    DigitsValueAppend(zs, ds);
    ZerosSpellZero(zs);
  }

  lemma {:induction false} ZerosSpellZero(zs: seq<int>)
    requires forall i :: 0 <= i < |zs| ==> zs[i] == 0
    ensures DigitsValue(zs) == 0
  {
    if |zs| != 0 {
      ZerosSpellZero(zs[..|zs| - 1]);
    }
  }

  // ------------------------------------------------------ tuple conversion

  /** `Decimal((sign, digits, exponent))` for a finite exponent: the sign is
      checked first, then every digit. A tuple that converts denotes its
      digits read as one integer, negated when the sign is 1, times
      `10^exponent`; so leading zeros are insignificant and an empty digit
      sequence denotes zero. */
  function FromTuple(sign: int, digits: seq<int>, exponent: int): (r: Result<Dec, DecimalError>)
    ensures r.Ok? <==> (sign == 0 || sign == 1) && IsDigits(digits)
    ensures sign != 0 && sign != 1 ==> r == Err(InvalidTupleSign)
    ensures (sign == 0 || sign == 1) && !IsDigits(digits) ==> r == Err(InvalidTupleDigit)
    ensures r.Ok? ==> r.value.exponent == exponent
    ensures r.Ok? && sign == 0 ==> r.value.coefficient >= 0
    ensures r.Ok? && sign == 1 ==> r.value.coefficient <= 0
    ensures r.Ok? ==> Value(r.value) == (if sign == 1 then -DigitsValue(digits) else DigitsValue(digits)) as real * Scale(exponent)
  {
    if sign != 0 && sign != 1 then Err(InvalidTupleSign)
    else if !IsDigits(digits) then Err(InvalidTupleDigit)
    else
      DigitsNotNegative(digits);
      var magnitude := DigitsValue(digits);
      Ok(Dec(if sign == 1 then -magnitude else magnitude, exponent))
  }

  /** `Decimal.as_tuple()` for a finite decimal. */
  function AsTuple(d: Dec): (int, seq<int>, int) {
    var magnitude := if d.coefficient < 0 then -d.coefficient else d.coefficient;
    (if d.coefficient < 0 then 1 else 0, ToDigits(magnitude), d.exponent)
  }

  /** Converting a decimal to its tuple and back gives the same decimal. */
  lemma TupleRoundTrip(d: Dec)
    ensures FromTuple(AsTuple(d).0, AsTuple(d).1, AsTuple(d).2) == Ok(d)
  {
    var magnitude := if d.coefficient < 0 then -d.coefficient else d.coefficient;
    ToDigitsRoundTrip(magnitude);
  }

  /** A tuple in the form `as_tuple` gives (no leading zero digit, and a
      zero that is not negative) converts to a decimal whose tuple is the
      same tuple. */
  lemma CanonicalTupleRoundTrip(sign: int, digits: seq<int>, exponent: int)
    requires (sign == 0 || sign == 1) && IsDigits(digits)
    requires |digits| >= 1 && (|digits| > 1 ==> digits[0] != 0)
    requires digits == [0] ==> sign == 0
    ensures FromTuple(sign, digits, exponent).Ok?
    ensures AsTuple(FromTuple(sign, digits, exponent).value) == (sign, digits, exponent)
  {
    CanonicalDigits(digits);
    if |digits| == 1 && digits[0] == 0 {
      assert digits == [0];
    }
  }

  /** Digits with no leading zero are the shortest digits of the number
      they spell. */
  lemma {:induction false} CanonicalDigits(ds: seq<int>)
    requires IsDigits(ds) && |ds| >= 1 && (|ds| > 1 ==> ds[0] != 0)
    ensures |ds| == 1 ==> DigitsValue(ds) == ds[0]
    ensures |ds| > 1 ==> DigitsValue(ds) >= 10
    ensures DigitsValue(ds) >= 0 && ToDigits(DigitsValue(ds)) == ds
  {
    var init, last := ds[..|ds| - 1], ds[|ds| - 1];
    if |ds| == 1 {
      assert |init| == 0;
      assert ds == [last];
    } else {
      assert IsDigits(init) by {
        forall i | 0 <= i < |init| ensures 0 <= init[i] <= 9 {
          assert init[i] == ds[i];
        }
      }
      assert init[0] == ds[0];
      CanonicalDigits(init);
      var n := DigitsValue(ds);
      assert n == DigitsValue(init) * 10 + last;
      assert n / 10 == DigitsValue(init) && n % 10 == last;
      assert ds == init + [last];
    }
  }

  /** Leading zero digits in a tuple are insignificant. */
  lemma TupleLeadingZeros(sign: int, zeros: nat, digits: seq<int>, exponent: int)
    ensures FromTuple(sign, seq(zeros, i => 0) + digits, exponent) == FromTuple(sign, digits, exponent)
  {
    var zs: seq<int> := seq(zeros, i => 0);
    LeadingZeros(zs, digits);
    assert IsDigits(zs + digits) <==> IsDigits(digits) by {
      if IsDigits(digits) {
        forall i | 0 <= i < |zs + digits| ensures 0 <= (zs + digits)[i] <= 9 {
          if i >= |zs| {
            assert (zs + digits)[i] == digits[i - |zs|];
          }
        }
      }
      if IsDigits(zs + digits) {
        forall i | 0 <= i < |digits| ensures 0 <= digits[i] <= 9 {
          assert digits[i] == (zs + digits)[i + |zs|];
        }
      }
    }
  }

  // ------------------------------------------------------------ arithmetic

  function Min(a: int, b: int): int {
    if a <= b then a else b
  }

  /** The coefficient of `d` rewritten at the smaller exponent `e`. */
  function AlignedCoefficient(d: Dec, e: int): (c: int)
    requires e <= d.exponent
    ensures Value(Dec(c, e)) == Value(d)
  {
    ValueShift(d.coefficient, e, d.exponent - e, d.exponent);
    d.coefficient * Pow10(d.exponent - e)
  }

  lemma ValueOfSum(x: int, y: int, e: int)
    ensures Value(Dec(x + y, e)) == Value(Dec(x, e)) + Value(Dec(y, e))
  {
    RealSum(x, y);
    Distribute(x as real, y as real, Scale(e));
  }

  lemma ValueOfNegation(x: int, e: int)
    ensures Value(Dec(-x, e)) == -Value(Dec(x, e))
  {
    NegatedProduct(x as real, Scale(e));
  }

  lemma NegatedProduct(a: real, s: real)
    ensures (-a) * s == -(a * s)
  {
  }

  function Negate(d: Dec): (r: Dec)
    ensures Value(r) == -Value(d)
    ensures r.exponent == d.exponent
  {
    ValueOfNegation(d.coefficient, d.exponent);
    Dec(-d.coefficient, d.exponent)
  }

  /** Exact decimal addition: the result carries the smaller exponent. */
  function Add(a: Dec, b: Dec): (r: Dec)
    ensures Value(r) == Value(a) + Value(b)
    ensures r.exponent == Min(a.exponent, b.exponent)
  {
    var e := Min(a.exponent, b.exponent);
    var ca := AlignedCoefficient(a, e);
    var cb := AlignedCoefficient(b, e);
    ValueOfSum(ca, cb, e);
    Dec(ca + cb, e)
  }

  /** Exact decimal subtraction, as addition of the negated subtrahend. */
  function Sub(a: Dec, b: Dec): (r: Dec)
    ensures Value(r) == Value(a) - Value(b)
    ensures r.exponent == Min(a.exponent, b.exponent)
  {
    Add(a, Negate(b))
  }

  lemma ValueOfProduct(a: Dec, b: Dec, q: int, z: int)
    requires q as real == a.coefficient as real * b.coefficient as real
    requires z == a.exponent + b.exponent
    ensures Value(Dec(q, z)) == Value(a) * Value(b)
  {
    ProductFacts(a, b, q, z);
    Interleave(a.coefficient as real, b.coefficient as real, Scale(a.exponent), Scale(b.exponent), Scale(z),
      Value(a), Value(b), Value(Dec(q, z)));
  }

  lemma ProductFacts(a: Dec, b: Dec, q: int, z: int)
    requires q as real == a.coefficient as real * b.coefficient as real
    requires z == a.exponent + b.exponent
    ensures Value(a) == a.coefficient as real * Scale(a.exponent)
    ensures Value(b) == b.coefficient as real * Scale(b.exponent)
    ensures Scale(z) == Scale(a.exponent) * Scale(b.exponent)
    ensures Value(Dec(q, z)) == (a.coefficient as real * b.coefficient as real) * Scale(z)
  {
    ScaleAdd(a.exponent, b.exponent, z);
    ValueOfMultiple(q, a.coefficient as real * b.coefficient as real, z);
  }

  lemma ValueDef(d: Dec)
    ensures Value(d) == d.coefficient as real * Scale(d.exponent)
  {
  }

  lemma Interleave(p: real, q: real, s: real, t: real, sz: real, vp: real, vq: real, v: real)
    requires vp == p * s && vq == q * t
    requires sz == s * t
    requires v == (p * q) * sz
    ensures v == vp * vq
  {
  }

  /** Exact decimal multiplication: coefficients multiply, exponents add. */
  function Mul(a: Dec, b: Dec): (r: Dec)
    ensures Value(r) == Value(a) * Value(b)
    ensures r.exponent == a.exponent + b.exponent
  {
    RealProduct(a.coefficient, b.coefficient);
    ValueOfProduct(a, b, a.coefficient * b.coefficient, a.exponent + b.exponent);
    Dec(a.coefficient * b.coefficient, a.exponent + b.exponent)
  }

  lemma CoefficientOrder(x: int, y: int, e: int)
    ensures x < y <==> Value(Dec(x, e)) < Value(Dec(y, e))
    ensures x == y <==> Value(Dec(x, e)) == Value(Dec(y, e))
  {
    ProductOrder(x as real, y as real, Scale(e));
  }

  /** Numeric `<` between decimals, computed on aligned coefficients. */
  function Less(a: Dec, b: Dec): (r: bool)
    ensures r <==> Value(a) < Value(b)
  {
    var e := Min(a.exponent, b.exponent);
    CoefficientOrder(AlignedCoefficient(a, e), AlignedCoefficient(b, e), e);
    AlignedCoefficient(a, e) < AlignedCoefficient(b, e)
  }

  /** Numeric `==` between decimals: `1.0` equals `1.00`. */
  function Equal(a: Dec, b: Dec): (r: bool)
    ensures r <==> Value(a) == Value(b)
  {
    var e := Min(a.exponent, b.exponent);
    CoefficientOrder(AlignedCoefficient(a, e), AlignedCoefficient(b, e), e);
    AlignedCoefficient(a, e) == AlignedCoefficient(b, e)
  }

  // ---------------------------------------------------------- quantization

  /** The value of `d` counted in units of `10^exponent`. */
  ghost function Units(d: Dec, exponent: int): real {
    Value(d) * Scale(-exponent)
  }

  lemma UnitsOfShift(d: Dec, exponent: int, shift: int)
    requires shift == d.exponent - exponent
    ensures Units(d, exponent) == d.coefficient as real * Scale(shift)
  {
    UnitsDef(d, exponent);
    ValueDef(d);
    ScaleAdd(d.exponent, -exponent, shift);
  }

  /** With a non-negative shift the value is a whole number of units. */
  lemma UnitsWhole(d: Dec, exponent: int, shift: nat, q: int)
    requires shift == d.exponent - exponent
    requires q as real == d.coefficient as real * Scale(shift)
    ensures Units(d, exponent) == q as real
  {
    UnitsOfShift(d, exponent, shift);
  }

  /** With a negative shift the value is the coefficient over a power of ten. */
  lemma UnitsFraction(d: Dec, exponent: int, shift: int)
    requires shift == d.exponent - exponent < 0
    ensures Units(d, exponent) == d.coefficient as real / Pow10(-shift) as real
  {
    UnitsOfShift(d, exponent, shift);
    ScaleOfNegative(shift);
  }

  /** `d.quantize(unit, rounding=ROUND_HALF_UP)` where `exponent` is the
      exponent of `unit`: the result has exactly that exponent, and its
      coefficient is the value of `d`, counted in units of `10^exponent`,
      rounded half up. */
  function Quantize(d: Dec, exponent: int): (r: Dec)
    ensures r.exponent == exponent
    ensures IsHalfUpRounding(Units(d, exponent), r.coefficient)
  {
    var shift := d.exponent - exponent;
    if shift >= 0 then
      var c := d.coefficient * Pow10(shift);
      MultipleOfPower(d.coefficient, shift, c);
      UnitsWhole(d, exponent, shift, c);
      HalfUpOfInteger(c, c);
      Dec(c, exponent)
    else
      UnitsFraction(d, exponent, shift);
      Dec(RoundHalfUp(d.coefficient, Pow10(-shift)), exponent)
  }

  /** The exact quotient `a / b` counted in units of `10^exponent`. */
  ghost function QuotientUnits(a: Dec, b: Dec, exponent: int): real
    requires b.coefficient != 0
  {
    Value(a) / Value(b) * Scale(-exponent)
  }

  /** The exact value of `a / b`, counted in units of `10^exponent`, rounded
      half up. Python computes the quotient in the decimal context first and
      quantizes that; here the quotient is kept exact. */
  function QuantizeQuotient(a: Dec, b: Dec, exponent: int): (r: Dec)
    requires b.coefficient != 0
    ensures r.exponent == exponent
    ensures IsHalfUpRounding(QuotientUnits(a, b, exponent), r.coefficient)
  {
    var shift := a.exponent - b.exponent - exponent;
    var num := if shift >= 0 then a.coefficient * Pow10(shift) else a.coefficient;
    var den := if shift >= 0 then b.coefficient else b.coefficient * Pow10(-shift);
    QuotientScaling(a, b, exponent, shift, num, den);
    if den > 0 then
      Dec(RoundHalfUp(num, den), exponent)
    else
      NegateBoth(num, den);
      Dec(RoundHalfUp(-num, -den), exponent)
  }

  lemma NegateBoth(n: int, d: int)
    requires d != 0
    ensures (-n) as real / (-d) as real == n as real / d as real
  {
  }

  lemma QuotientScaling(a: Dec, b: Dec, exponent: int, shift: int, num: int, den: int)
    requires b.coefficient != 0
    requires shift == a.exponent - b.exponent - exponent
    requires num == (if shift >= 0 then a.coefficient * Pow10(shift) else a.coefficient)
    requires den == (if shift >= 0 then b.coefficient else b.coefficient * Pow10(-shift))
    ensures den != 0
    ensures QuotientUnits(a, b, exponent) == num as real / den as real
  {
    if shift >= 0 {
      MultipleOfPower(a.coefficient, shift, num);
      QuotientScalingUp(a, b, exponent, shift, num, den);
    } else {
      var p := Pow10(-shift);
      ProductAsReal(b.coefficient, p, den);
      QuotientScalingDown(a, b, exponent, shift, p, num, den);
    }
  }

  lemma ProductAsReal(c: int, p: int, q: int)
    requires q == c * p
    ensures q as real == c as real * p as real
  {
  }

  lemma QuotientScalingUp(a: Dec, b: Dec, exponent: int, shift: nat, num: int, den: int)
    requires b.coefficient != 0
    requires shift == a.exponent - b.exponent - exponent
    requires num as real == a.coefficient as real * Scale(shift) && den == b.coefficient
    ensures den != 0
    ensures QuotientUnits(a, b, exponent) == num as real / den as real
  {
    QuotientAsScale(a, b, exponent, shift);
    ScaledQuotient(a.coefficient as real, b.coefficient as real, Scale(shift), num as real, den as real,
      QuotientUnits(a, b, exponent));
  }

  lemma QuotientScalingDown(a: Dec, b: Dec, exponent: int, shift: int, p: nat, num: int, den: int)
    requires b.coefficient != 0
    requires shift == a.exponent - b.exponent - exponent < 0
    requires p == Pow10(-shift)
    requires num == a.coefficient && den as real == b.coefficient as real * p as real
    ensures den != 0
    ensures QuotientUnits(a, b, exponent) == num as real / den as real
  {
    QuotientAsScale(a, b, exponent, shift);
    ScaleOfNegative(shift);
    ShrunkQuotient(a.coefficient as real, b.coefficient as real, p as real, Scale(shift),
      num as real, den as real, QuotientUnits(a, b, exponent));
  }

  /* The quotient lemmas below state their field algebra over plain real
     variables: with the definitions of `Scale` and `Value` in view, the
     solver does not find these steps within its resource limit. */

  lemma ScaledQuotient(ca: real, cb: real, s: real, n: real, d: real, u: real)
    requires cb != 0.0 && n == ca * s && d == cb && u == ca / cb * s
    ensures d != 0.0 && u == n / d
  {
  }

  lemma ShrunkQuotient(ca: real, cb: real, p: real, s: real, n: real, d: real, u: real)
    requires cb != 0.0 && p > 0.0 && s == 1.0 / p && n == ca && d == cb * p && u == ca / cb * s
    ensures d != 0.0 && u == n / d
  {
  }

  lemma QuotientAsScale(a: Dec, b: Dec, exponent: int, shift: int)
    requires b.coefficient != 0
    requires shift == a.exponent - b.exponent - exponent
    ensures QuotientUnits(a, b, exponent) == a.coefficient as real / b.coefficient as real * Scale(shift)
  {
    var t := b.exponent + exponent;
    QuotientFacts(a, b, exponent, shift, t);
    QuotientAlgebra(a.coefficient as real, b.coefficient as real,
      Scale(shift), Scale(t), Scale(a.exponent), Scale(b.exponent), Scale(exponent), Scale(-exponent),
      Value(a), Value(b), QuotientUnits(a, b, exponent));
  }

  /** The facts `QuotientAlgebra` combines, kept behind one name so that
      the caller establishes them one at a time. */
  ghost predicate QuotientPremises(ca: real, cb: real, s: real, st: real, sa: real, sb: real, se: real,
                                   sn: real, va: real, vb: real, u: real) {
    && cb != 0.0 && sb > 0.0 && se > 0.0
    && sa == s * st && st == sb * se && se * sn == 1.0
    && va == ca * sa && vb == cb * sb
    && u == va / vb * sn
  }

  lemma QuotientFacts(a: Dec, b: Dec, exponent: int, shift: int, t: int)
    requires b.coefficient != 0
    requires shift == a.exponent - b.exponent - exponent
    requires t == b.exponent + exponent
    ensures QuotientPremises(a.coefficient as real, b.coefficient as real,
      Scale(shift), Scale(t), Scale(a.exponent), Scale(b.exponent), Scale(exponent), Scale(-exponent),
      Value(a), Value(b), QuotientUnits(a, b, exponent))
  {
    QuotientScales(a.exponent, b.exponent, exponent, shift, t);
  }

  /** How the scales of the operands, the target and the shift relate. */
  lemma QuotientScales(ea: int, eb: int, exponent: int, shift: int, t: int)
    requires shift == ea - eb - exponent && t == eb + exponent
    ensures Scale(ea) == Scale(shift) * Scale(t)
    ensures Scale(t) == Scale(eb) * Scale(exponent)
    ensures Scale(exponent) * Scale(-exponent) == 1.0
  {
    ScaleAdd(shift, t, ea);
    ScaleAdd(eb, exponent, t);
    ScaleAdd(exponent, -exponent, 0);
  }

  lemma QuotientAlgebra(ca: real, cb: real, s: real, st: real, sa: real, sb: real, se: real, sn: real,
                        va: real, vb: real, u: real)
    requires QuotientPremises(ca, cb, s, st, sa, sb, se, sn, va, vb, u)
    ensures u == ca / cb * s
  {
    assert va == (ca * s) * (sb * se);
    assert vb != 0.0;
    assert va / vb == (ca * s * se) / cb;
    assert va / vb * sn == (ca * s) / cb * (se * sn);
  }

  /** Quantizing a value that already has the target exponent changes nothing. */
  lemma QuantizeIdempotent(d: Dec, exponent: int)
    ensures Quantize(Quantize(d, exponent), exponent) == Quantize(d, exponent)
  {
  }

  /** Quantization is the unique coefficient that is the half-up rounding of
      the value in units of the target exponent: both directions. */
  lemma QuantizeIff(d: Dec, exponent: int, c: int)
    ensures Quantize(d, exponent).coefficient == c <==> IsHalfUpRounding(Units(d, exponent), c)
  {
    if IsHalfUpRounding(Units(d, exponent), c) {
      HalfUpUnique(Units(d, exponent), c, Quantize(d, exponent).coefficient);
    }
  }

  lemma UnitsOfWhole(k: int, exponent: int)
    ensures Units(Dec(k, exponent), exponent) == k as real
  {
    UnitsDef(Dec(k, exponent), exponent);
    ValueOf(k, exponent);
    ScaleAdd(exponent, -exponent, 0);
    ScaleOfNat(0);
    assert Units(Dec(k, exponent), exponent) == k as real * (Scale(exponent) * Scale(-exponent));
  }

  /** Equal values count the same number of units. */
  lemma UnitsOfEqual(a: Dec, b: Dec, exponent: int)
    requires Value(a) == Value(b)
    ensures Units(a, exponent) == Units(b, exponent)
  {
    UnitsDef(a, exponent);
    UnitsDef(b, exponent);
  }

  /** A decimal whose value is a whole number `k` of units quantizes to `k`:
      quantization introduces no error when none is needed. */
  lemma QuantizeExact(d: Dec, exponent: int, k: int)
    requires Value(d) == Value(Dec(k, exponent))
    ensures Quantize(d, exponent) == Dec(k, exponent)
  {
    UnitsOfWhole(k, exponent);
    UnitsOfEqual(d, Dec(k, exponent), exponent);
    HalfUpOfInteger(k, Quantize(d, exponent).coefficient);
  }

  lemma UnitsDef(d: Dec, exponent: int)
    ensures Units(d, exponent) == Value(d) * Scale(-exponent)
  {
  }

  lemma UnitsOfNegation(d: Dec, exponent: int)
    ensures Units(Negate(d), exponent) == -Units(d, exponent)
  {
    UnitsDef(d, exponent);
    UnitsDef(Negate(d), exponent);
  }

  /** Negating before quantizing is negating after: ties go away from zero
      on both sides. */
  lemma QuantizeNegate(d: Dec, exponent: int)
    ensures Quantize(Negate(d), exponent) == Negate(Quantize(d, exponent))
  {
    var x := Units(d, exponent);
    var c := Quantize(d, exponent).coefficient;
    UnitsOfNegation(d, exponent);
    HalfUpNegate(x, c);
    QuantizeIff(Negate(d), exponent, -c);
  }

  lemma UnitsOrder(a: Dec, b: Dec, exponent: int)
    requires Value(a) <= Value(b)
    ensures Units(a, exponent) <= Units(b, exponent)
  {
    UnitsDef(a, exponent);
    UnitsDef(b, exponent);
    ProductOrder(Value(a), Value(b), Scale(-exponent));
  }

  /** Quantization preserves the order of values. */
  lemma QuantizeMonotone(a: Dec, b: Dec, exponent: int)
    requires Value(a) <= Value(b)
    ensures Quantize(a, exponent).coefficient <= Quantize(b, exponent).coefficient
  {
    UnitsOrder(a, b, exponent);
    HalfUpMonotone(Units(a, exponent), Units(b, exponent),
      Quantize(a, exponent).coefficient, Quantize(b, exponent).coefficient);
  }
}
