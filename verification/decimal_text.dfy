/** The part of `Decimal(str)` that the monetary type relies on: decimal
    numerals with an optional sign, an optional point and an optional
    exponent, and the plain notation in which a decimal with a non-positive
    exponent is written back (`"-12.30"`). */
module DecimalText {
  import opened Results
  import opened Rounding
  import opened Decimals

  predicate IsDigitChar(ch: char) {
    '0' <= ch <= '9'
  }

  predicate AllDigitChars(s: string) {
    forall i :: 0 <= i < |s| ==> IsDigitChar(s[i])
  }

  function DigitOfChar(ch: char): (d: int)
    requires IsDigitChar(ch)
    ensures 0 <= d <= 9
  {
    ch as int - '0' as int
  }

  function CharOfDigit(d: int): (ch: char)
    requires 0 <= d <= 9
    ensures IsDigitChar(ch) && DigitOfChar(ch) == d
  {
    ('0' as int + d) as char
  }

  /** The digits a run of digit characters spells, most significant first. */
  function DigitsOf(s: string): (ds: seq<int>)
    requires AllDigitChars(s)
    ensures IsDigits(ds) && |ds| == |s|
  {
    seq(|s|, i requires 0 <= i < |s| => DigitOfChar(s[i]))
  }

  /** The characters that spell a digit sequence. */
  function Numeral(ds: seq<int>): (s: string)
    requires IsDigits(ds)
    ensures AllDigitChars(s) && DigitsOf(s) == ds
  {
    seq(|ds|, i requires 0 <= i < |ds| => CharOfDigit(ds[i]))
  }

  /** The position of the first `a` or `b` in `s`, or `|s|` when there is none. */
  function FirstOf(s: string, a: char, b: char): (i: nat)
    ensures i <= |s|
    ensures i < |s| ==> s[i] == a || s[i] == b
    ensures forall j :: 0 <= j < i ==> s[j] != a && s[j] != b
  {
    if |s| == 0 then 0
    else if s[0] == a || s[0] == b then 0
    else 1 + FirstOf(s[1..], a, b)
  }

  /** An exponent: an optional sign followed by at least one digit. */
  function ParseExponent(x: string): (r: Option<int>)
    ensures r.Some? ==> |x| > 0
  {
    var negative := |x| > 0 && x[0] == '-';
    var digits := if |x| > 0 && (x[0] == '-' || x[0] == '+') then x[1..] else x;
    if |digits| == 0 || !AllDigitChars(digits) then None
    else
      var magnitude := DigitsValue(DigitsOf(digits));
      Some(if negative then -magnitude else magnitude)
  }

  /** `Decimal(s)` for a numeral
        [sign] (digits [`.` [digits]] | `.` digits) [(`e` | `E`) [sign] digits]
      The value is the digits read as one integer, scaled down by the number
      of digits after the point and up by the exponent. Anything else is a
      conversion syntax error. */
  function Parse(s: string): (r: Result<Dec, DecimalError>)
    ensures r.Err? ==> r.error == ConversionSyntax
  {
    var negative := |s| > 0 && s[0] == '-';
    var body := if |s| > 0 && (s[0] == '-' || s[0] == '+') then s[1..] else s;
    WithSign(negative, ParseUnsigned(body))
  }

  function WithSign(negative: bool, magnitude: Option<Dec>): (r: Result<Dec, DecimalError>)
    ensures r.Ok? <==> magnitude.Some?
  {
    match magnitude
    case None => Err(ConversionSyntax)
    case Some(d) => Ok(if negative then Dec(-d.coefficient, d.exponent) else d)
  }

  /** A numeral after its sign: a mantissa and an optional exponent. */
  function ParseUnsigned(body: string): (r: Option<Dec>)
    ensures r.Some? ==> r.value.coefficient >= 0
  {
    var e := FirstOf(body, 'e', 'E');
    var mantissa := ParseMantissa(body[..e]);
    var exponent := if e < |body| then ParseExponent(body[e + 1..]) else Some(0);
    if mantissa.None? || exponent.None? then None
    else
      DigitsNotNegative(mantissa.value.0);
      Some(Dec(DigitsValue(mantissa.value.0), exponent.value - mantissa.value.1))
  }

  /** The digits of a mantissa `w`, `w.`, `w.f` or `.f` (at least one digit in
      all), and how many of them follow the point. */
  function ParseMantissa(m: string): (r: Option<(seq<int>, nat)>)
    ensures r.Some? ==> IsDigits(r.value.0) && r.value.1 <= |r.value.0|
  {
    var dot := FirstOf(m, '.', '.');
    var whole := m[..dot];
    var fraction := if dot < |m| then m[dot + 1..] else [];
    if !AllDigitChars(whole) || !AllDigitChars(fraction) || |whole| + |fraction| == 0 then None
    else Some((DigitsOf(whole) + DigitsOf(fraction), |fraction|))
  }

  /** A string without either marker is found to have none. */
  lemma NoMarker(s: string, a: char, b: char)
    requires AllDigitChars(s) && !IsDigitChar(a) && !IsDigitChar(b)
    ensures FirstOf(s, a, b) == |s|
  {
  }

  // ------------------------------------------------------- plain notation

  /** `ds` with zeros prepended until it has at least `n` digits. */
  function Padded(ds: seq<int>, n: nat): (r: seq<int>)
    requires IsDigits(ds)
    ensures IsDigits(r) && |r| >= n && |r| >= |ds|
    ensures DigitsValue(r) == DigitsValue(ds)
  {
    if |ds| >= n then ds
    else
      var zeros: seq<int> := seq(n - |ds|, i => 0);
      LeadingZeros(zeros, ds);
      assert IsDigits(zeros + ds) by {
        forall i | 0 <= i < |zeros + ds| ensures 0 <= (zeros + ds)[i] <= 9 {
          if i >= |zeros| {
            assert (zeros + ds)[i] == ds[i - |zeros|];
          }
        }
      }
      zeros + ds
  }

  /** How `str` writes the decimal `Dec(c, -places)` when it does not switch
      to scientific notation (it does not for amounts in cents): a minus sign
      for a negative value, the whole part with at least one digit, and, when
      `places > 0`, a point followed by exactly `places` digits. */
  function FormatPlain(c: int, places: nat): (s: string)
    ensures |s| > places
  {
    Spell(c < 0, Numeral(WholeDigits(c, places)), Numeral(FractionDigits(c, places)))
  }

  /** The magnitude of `c` with at least `places + 1` digits. */
  function PaddedMagnitude(c: int, places: nat): (ds: seq<int>)
    ensures IsDigits(ds) && |ds| > places
    ensures DigitsValue(ds) == if c < 0 then -c else c
  {
    var magnitude := if c < 0 then -c else c;
    ToDigitsRoundTrip(magnitude);
    Padded(ToDigits(magnitude), places + 1)
  }

  function WholeDigits(c: int, places: nat): (ds: seq<int>)
    ensures IsDigits(ds) && |ds| > 0
  {
    var padded := PaddedMagnitude(c, places);
    padded[..|padded| - places]
  }

  function FractionDigits(c: int, places: nat): (ds: seq<int>)
    ensures IsDigits(ds) && |ds| == places
  {
    var padded := PaddedMagnitude(c, places);
    padded[|padded| - places..]
  }

  /** A sign, whole digits and, when there are any, a point and fraction digits. */
  function Spell(negative: bool, w: string, f: string): string {
    (if negative then "-" else "") + (w + (if |f| > 0 then "." + f else ""))
  }

  lemma {:induction false} FirstAfterDigits(w: string, t: string, a: char, b: char)
    requires AllDigitChars(w) && !IsDigitChar(a) && !IsDigitChar(b)
    ensures FirstOf(w + t, a, b) == |w| + FirstOf(t, a, b)
  {
    if |w| != 0 {
      assert (w + t)[0] == w[0];
      assert (w + t)[1..] == w[1..] + t;
      FirstAfterDigits(w[1..], t, a, b);
    } else {
      assert w + t == t;
    }
  }
  /** `w` or `w.f` as a mantissa. */
  lemma ParseMantissaOf(w: string, f: string, withPoint: bool)
    requires |w| > 0 && AllDigitChars(w) && AllDigitChars(f)
    requires !withPoint ==> f == []
    ensures ParseMantissa(w + (if withPoint then "." + f else "")) == Some((DigitsOf(w) + DigitsOf(f), |f|))
  {
    var m := w + (if withPoint then "." + f else "");
    FirstAfterDigits(w, if withPoint then "." + f else "", '.', '.');
    if withPoint {
      assert m[..|w|] == w;
      assert m[|w| + 1..] == f;
    } else {
      assert m == w;
      assert m[..|w|] == w;
    }
  }

  /** Digits, optionally followed by a point and digits, contain no exponent marker. */
  lemma NoExponentIn(w: string, f: string, withPoint: bool)
    requires AllDigitChars(w) && AllDigitChars(f)
    ensures FirstOf(w + (if withPoint then "." + f else ""), 'e', 'E') == |w + (if withPoint then "." + f else "")|
  {
    var tail := if withPoint then "." + f else "";
    FirstAfterDigits(w, tail, 'e', 'E');
    if withPoint {
      assert tail[1..] == f;
      NoMarker(f, 'e', 'E');
    }
  }

  /** The text `w` or `w.f` is read as the digits of `w` and `f` together,
      scaled down by the length of `f`. */
  lemma ParseDigitsAndPoint(w: string, f: string, withPoint: bool)
    requires |w| > 0 && AllDigitChars(w) && AllDigitChars(f)
    requires !withPoint ==> f == []
    ensures ParseUnsigned(w + (if withPoint then "." + f else "")) ==
              Some(Dec(DigitsValue(DigitsOf(w) + DigitsOf(f)), -(|f| as int)))
  {
    var body := w + (if withPoint then "." + f else "");
    assert FirstOf(body, 'e', 'E') == |body| by {
      NoExponentIn(w, f, withPoint);
    }
    assert ParseMantissa(body) == Some((DigitsOf(w) + DigitsOf(f), |f|)) by {
      ParseMantissaOf(w, f, withPoint);
    }
    ParseWithoutExponent(body, DigitsOf(w) + DigitsOf(f), |f|);
  }

  /** A numeral with no exponent marker is read as its mantissa alone. */
  lemma ParseWithoutExponent(body: string, ds: seq<int>, places: nat)
    requires FirstOf(body, 'e', 'E') == |body|
    requires ParseMantissa(body) == Some((ds, places))
    ensures ParseUnsigned(body) == Some(Dec(DigitsValue(ds), -(places as int)))
  {
    var e := FirstOf(body, 'e', 'E');
    assert ParseMantissa(body[..e]) == Some((ds, places)) by {
      assert body[..e] == body;
    }
  }

  /** A leading `-` negates, and text that starts with a digit has no sign. */
  lemma ParseSigned(negative: bool, body: string)
    requires |body| > 0 && IsDigitChar(body[0])
    ensures Parse((if negative then "-" else "") + body) == WithSign(negative, ParseUnsigned(body))
  {
    var s := (if negative then "-" else "") + body;
    if negative {
      assert s[0] == '-';
      assert s[1..] == body;
    } else {
      assert s == body;
    }
  }

  /** A run of digits is read as an integer. */
  lemma ParseInteger(s: string)
    requires |s| > 0 && AllDigitChars(s)
    ensures Parse(s) == Ok(Dec(DigitsValue(DigitsOf(s)), 0))
  {
    ParseDigitsAndPoint(s, "", false);
    assert s + (if false then "." + "" else "") == s;
    assert DigitsOf(s) + DigitsOf("") == DigitsOf(s);
    assert IsDigitChar(s[0]);
    ParseSigned(false, s);
    assert "" + s == s;
  }

  lemma WholeAndFraction(c: int, places: nat)
    ensures DigitsValue(WholeDigits(c, places) + FractionDigits(c, places)) == if c < 0 then -c else c
  {
    var padded := PaddedMagnitude(c, places);
    assert WholeDigits(c, places) + FractionDigits(c, places) == padded;
  }

  /** Parsing a spelled-out decimal, sign included. */
  lemma ParseSpelled(negative: bool, w: string, f: string)
    requires |w| > 0 && AllDigitChars(w) && AllDigitChars(f)
    ensures var magnitude := DigitsValue(DigitsOf(w) + DigitsOf(f));
            Parse(Spell(negative, w, f)) == Ok(Dec(if negative then -magnitude else magnitude, -(|f| as int)))
  {
    var body := w + (if |f| > 0 then "." + f else "");
    var m := DigitsValue(DigitsOf(w) + DigitsOf(f));
    var d := Dec(m, -(|f| as int));
    var signed := if negative then Dec(-d.coefficient, d.exponent) else d;
    assert signed == Dec(if negative then -m else m, -(|f| as int));
    SpelledBody(w, f, body);
    ParseSignedText(negative, Spell(negative, w, f), body, d);
  }

  /** The unsigned part of a spelled numeral starts with a digit and reads as its digits. */
  lemma SpelledBody(w: string, f: string, body: string)
    requires |w| > 0 && AllDigitChars(w) && AllDigitChars(f)
    requires body == w + (if |f| > 0 then "." + f else "")
    ensures |body| > 0 && IsDigitChar(body[0])
    ensures ParseUnsigned(body) == Some(Dec(DigitsValue(DigitsOf(w) + DigitsOf(f)), -(|f| as int)))
  {
    ParseDigitsAndPoint(w, f, |f| > 0);
    assert body[0] == w[0];
  }

  /** A signed numeral whose unsigned part reads as `d`. */
  lemma ParseSignedText(negative: bool, text: string, body: string, d: Dec)
    requires text == (if negative then "-" else "") + body
    requires |body| > 0 && IsDigitChar(body[0])
    requires ParseUnsigned(body) == Some(d)
    ensures Parse(text) == Ok(if negative then Dec(-d.coefficient, d.exponent) else d)
  {
    ParseSigned(negative, body);
  }

  /** Plain notation reads back as the decimal it was written from. */
  lemma FormatPlainRoundTrip(c: int, places: nat)
    ensures Parse(FormatPlain(c, places)) == Ok(Dec(c, -(places as int)))
  {
    var w, f := Numeral(WholeDigits(c, places)), Numeral(FractionDigits(c, places));
    var magnitude := DigitsValue(DigitsOf(w) + DigitsOf(f));
    assert magnitude == if c < 0 then -c else c by {
      WholeAndFraction(c, places);
    }
    assert Parse(FormatPlain(c, places)) == Ok(Dec(if c < 0 then -magnitude else magnitude, -(places as int))) by {
      ParseSpelled(c < 0, w, f);
    }
  }

  /** The numeral of zero with two decimals. */
  lemma ParseZeroCents()
    ensures Parse("0.00") == Ok(Dec(0, -2))
  {
    assert DigitsValue(DigitsOf("0") + DigitsOf("00")) == 0 by {
      assert DigitsOf("0") + DigitsOf("00") == [0, 0, 0];
      ZerosSpellZero([0, 0, 0]);
    }
    assert Spell(false, "0", "00") == "0.00";
    ParseSpelled(false, "0", "00");
  }

  lemma ParseEmpty()
    ensures Parse("") == Err(ConversionSyntax)
  {
  }

  lemma ParseLonePoint()
    ensures Parse(".") == Err(ConversionSyntax)
  {
  }

  lemma ParseTwoPoints()
    ensures Parse("1.2.3") == Err(ConversionSyntax)
  {
    assert FirstOf("1.2.3", 'e', 'E') == 5;
    assert ParseMantissa("1.2.3"[..5]) == None by {
      assert "1.2.3"[..5] == "1.2.3";
      assert FirstOf("1.2.3", '.', '.') == 1;
      assert !AllDigitChars("1.2.3"[2..]) by { assert "1.2.3"[2..][1] == '.'; }
    }
  }

  lemma ParseMissingExponent()
    ensures Parse("1e") == Err(ConversionSyntax)
  {
  }

  lemma ParseDoubleSign()
    ensures Parse("--1") == Err(ConversionSyntax)
  {
  }
}
