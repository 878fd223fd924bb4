/** Text-only admission of provider decimal presentation: the geometry decided on characters, with
    a saturating exponent, refines the envelope decided on the Decimal the text denotes. */
module DecimalPreflight {
  import opened Arithmetic
  import opened ExactDecimal
  import opened ExactOperations
  import opened DigitText
  import opened DecimalText

  // -------------------------------------------------- the presentation grammar

  /** One match of the presentation pattern: sign, digits around an optional point, and an
      optional exponent. */
  datatype Token = Token(
    sign: string, whole: string, point: bool, fraction: string,
    marker: string, expSign: string, expDigits: string)

  predicate IsSign(s: string) {
    s == "" || s == "+" || s == "-"
  }

  predicate WellFormed(t: Token) {
    && IsSign(t.sign) && IsSign(t.expSign)
    && AllDigits(t.whole) && AllDigits(t.fraction) && AllDigits(t.expDigits)
    && (t.whole != "" || (t.point && t.fraction != ""))
    && (!t.point ==> t.fraction == "")
    && (t.marker == "e" || t.marker == "E" || t.marker == "")
    && (if t.marker == "" then t.expSign == "" && t.expDigits == "" else t.expDigits != "")
  }

  function Mantissa(t: Token): string {
    t.whole + (if t.point then "." + t.fraction else "")
  }

  function Exponent(t: Token): string {
    t.expSign + t.expDigits
  }

  /** The token without its sign, written out. */
  function Unsigned(t: Token): string {
    Mantissa(t) + (t.marker + Exponent(t))
  }

  function Render(t: Token): string {
    t.sign + Unsigned(t)
  }

  // ---------------------------------------- the cutting the source performs

  /** The pattern as an automaton that reads the text once, from left to right. */
  datatype Reading =
    | Start | Signed | Lead | Whole | Places | Marker | ExpSigned | ExpDigits | Stuck

  function Read(q: Reading, c: char): Reading {
    match q
    case Start => if c in "+-" then Signed else if IsDigit(c) then Whole else if c == '.' then Lead else Stuck
    case Signed => if IsDigit(c) then Whole else if c == '.' then Lead else Stuck
    case Lead => if IsDigit(c) then Places else Stuck
    case Whole =>
      if IsDigit(c) then Whole else if c == '.' then Places else if c in "eE" then Marker else Stuck
    case Places => if IsDigit(c) then Places else if c in "eE" then Marker else Stuck
    case Marker => if c in "+-" then ExpSigned else if IsDigit(c) then ExpDigits else Stuck
    case ExpSigned => if IsDigit(c) then ExpDigits else Stuck
    case ExpDigits => if IsDigit(c) then ExpDigits else Stuck
    case Stuck => Stuck
  }

  function ReadAll(q: Reading, s: string): Reading
    decreases |s|
  {
    if s == "" then q else ReadAll(Read(q, s[0]), s[1..])
  }

  predicate Accepting(q: Reading) {
    q == Whole || q == Places || q == ExpDigits
  }

  function CutSign(s: string): (r: (string, string))
    ensures r.0 + r.1 == s && IsSign(r.0)
  {
    if s != "" && (s[0] == '-' || s[0] == '+') then (s[..1], s[1..]) else ("", s)
  }

  function MarkerAt(s: string): (i: int)
    ensures -1 <= i < |s|
  {
    var i := Find(s, 'e');
    if i < 0 then Find(s, 'E') else i
  }

  function CutMarker(s: string): (r: (string, string, string))
    ensures r.0 + (r.1 + r.2) == s
  {
    var i := MarkerAt(s);
    if i < 0 then (s, "", "") else
      assert s[..i] + ([s[i]] + s[i + 1..]) == s;
      (s[..i], [s[i]], s[i + 1..])
  }

  function CutPoint(s: string): (r: (string, bool, string))
    ensures r.0 + (if r.1 then "." + r.2 else "") == s
    ensures !r.1 ==> r.2 == ""
  {
    var i := Find(s, '.');
    if i < 0 then (s, false, "") else
      assert s[..i] + ("." + s[i + 1..]) == s;
      (s[..i], true, s[i + 1..])
  }

  function Split(s: string): (t: Token)
  {
    var (sign, unsigned) := CutSign(s);
    var (mantissa, marker, exponent) := CutMarker(unsigned);
    var (whole, point, fraction) := CutPoint(mantissa);
    var (expSign, expDigits) := CutSign(exponent);
    Token(sign, whole, point, fraction, marker, expSign, expDigits)
  }

  lemma RenderSplit(s: string)
    ensures Render(Split(s)) == s
  {
  }

  lemma CutSignOf(sign: string, rest: string)
    requires IsSign(sign) && (rest == "" || (rest[0] != '-' && rest[0] != '+'))
    ensures CutSign(sign + rest) == (sign, rest)
  {
    var s := sign + rest;
    if sign == "" {
      assert s == rest;
    } else {
      assert s[..1] == sign && s[1..] == rest;
    }
  }

  lemma MantissaFacts(t: Token)
    requires WellFormed(t)
    ensures Mantissa(t) != "" && Mantissa(t)[0] != '-' && Mantissa(t)[0] != '+'
    ensures 'e' !in Mantissa(t) && 'E' !in Mantissa(t)
    ensures CutPoint(Mantissa(t)) == (t.whole, t.point, t.fraction)
  {
    if t.point {
      FindAfter(t.whole, '.', t.fraction);
      assert Mantissa(t) == t.whole + ['.'] + t.fraction;
    } else {
      assert Mantissa(t) == t.whole;
    }
  }

  lemma CutMarkerOf(m: string, marker: string, exponent: string)
    requires 'e' !in m && 'E' !in m && 'e' !in exponent && 'E' !in exponent
    requires marker == "e" || marker == "E" || (marker == "" && exponent == "")
    ensures CutMarker(m + (marker + exponent)) == (m, marker, exponent)
  {
    var s := m + (marker + exponent);
    if marker == "" {
      assert s == m;
    } else {
      var c := marker[0];
      assert s == m + [c] + exponent;
      FindAfter(m, c, exponent);
      if c == 'E' {
        assert 'e' !in s;
      }
    }
  }

  /** The source's cutting finds the unique pattern match, when there is one. */
  lemma SplitRender(t: Token)
    requires WellFormed(t)
    ensures Split(Render(t)) == t
  {
    MantissaFacts(t);
    var tail := t.marker + Exponent(t);
    assert (Mantissa(t) + tail)[0] == Mantissa(t)[0];
    CutSignOf(t.sign, Mantissa(t) + tail);
    CutMarkerOf(Mantissa(t), t.marker, Exponent(t));
    CutSignOf(t.expSign, t.expDigits);
  }

  ghost predicate Presentation(s: string) {
    exists t :: WellFormed(t) && Render(t) == s
  }

  /** So testing the pieces of the cut is matching the pattern. */
  lemma PresentationIsSplit(s: string)
    ensures Presentation(s) <==> WellFormed(Split(s))
  {
    RenderSplit(s);
    if Presentation(s) {
      var t :| WellFormed(t) && Render(t) == s;
      SplitRender(t);
    }
  }

  lemma {:induction false} ReadConcat(q: Reading, s: string, t: string)
    ensures ReadAll(q, s + t) == ReadAll(ReadAll(q, s), t)
    decreases |s|
  {
    if s == "" {
      assert s + t == t;
    } else {
      assert (s + t)[0] == s[0] && (s + t)[1..] == s[1..] + t;
      ReadConcat(Read(q, s[0]), s[1..], t);
    }
  }

  lemma {:induction false} ReadDigits(q: Reading, s: string)
    requires AllDigits(s) && Accepting(q)
    ensures ReadAll(q, s) == q
    decreases |s|
  {
    if s != "" {
      ReadDigits(Read(q, s[0]), s[1..]);
    }
  }

  lemma ReadSigned(q: Reading, sign: string)
    requires IsSign(sign) && (q == Start || q == Marker)
    ensures ReadAll(q, sign) ==
            if sign == "" then q else if q == Start then Signed else ExpSigned
  {
  }

  /** Digits after a sign, or without one. */
  lemma ReadNumber(q: Reading, s: string)
    requires AllDigits(s) && s != "" && q in {Start, Signed, Lead, Marker, ExpSigned}
    ensures ReadAll(q, s) == if q == Lead then Places else if q in {Start, Signed} then Whole else ExpDigits
  {
    ReadDigits(Read(q, s[0]), s[1..]);
  }

  lemma ReadExponent(q: Reading, marker: string, expSign: string, expDigits: string)
    requires (q == Whole || q == Places) && (marker == "e" || marker == "E")
    requires IsSign(expSign) && AllDigits(expDigits) && expDigits != ""
    ensures ReadAll(q, marker + (expSign + expDigits)) == ExpDigits
  {
    assert ReadAll(q, marker) == Marker;
    ReadConcat(q, marker, expSign + expDigits);
    ReadConcat(Marker, expSign, expDigits);
    ReadSigned(Marker, expSign);
    ReadNumber(ReadAll(Marker, expSign), expDigits);
  }

  lemma ReadMantissa(q: Reading, t: Token)
    requires WellFormed(t) && (q == Start || q == Signed)
    ensures ReadAll(q, Mantissa(t)) == if t.point then Places else Whole
  {
    var tail := "." + t.fraction;
    if t.whole == "" {
      assert tail[1..] == t.fraction;
      assert Mantissa(t) == tail && ReadAll(q, tail) == ReadAll(Lead, t.fraction);
      ReadNumber(Lead, t.fraction);
    } else {
      ReadNumber(q, t.whole);
      if t.point {
        assert tail[1..] == t.fraction;
        ReadConcat(q, t.whole, tail);
        ReadDigits(Places, t.fraction);
      } else {
        assert Mantissa(t) == t.whole;
      }
    }
  }

  lemma ReadRender(t: Token)
    requires WellFormed(t)
    ensures Accepting(ReadAll(Start, Render(t)))
  {
    var rest := t.marker + Exponent(t);
    ReadConcat(Start, t.sign, Mantissa(t) + rest);
    ReadSigned(Start, t.sign);
    var q := ReadAll(Start, t.sign);
    ReadConcat(q, Mantissa(t), rest);
    ReadMantissa(q, t);
    if t.marker == "" {
      assert rest == "";
    } else {
      ReadExponent(ReadAll(q, Mantissa(t)), t.marker, t.expSign, t.expDigits);
    }
  }

  lemma {:induction false} ReadStuck(s: string)
    ensures ReadAll(Stuck, s) == Stuck
    decreases |s|
  {
    if s != "" {
      ReadStuck(s[1..]);
    }
  }

  lemma ExponentRead(s: string) returns (expSign: string, expDigits: string)
    requires Accepting(ReadAll(Marker, s))
    ensures s == expSign + expDigits && IsSign(expSign) && AllDigits(expDigits) && expDigits != ""
  {
    expSign := if s != "" && s[0] in "+-" then s[..1] else "";
    expDigits := s[|expSign|..];
    assert s == expSign + expDigits;
    ReadConcat(Marker, expSign, expDigits);
    var q := if expSign == "" then Marker else ExpSigned;
    assert ReadAll(Marker, expSign) == q;
    if !IsDigit(expDigits[0]) { ReadStuck(expDigits[1..]); }
    AfterExponentDigits(expDigits[1..]);
  }

  lemma {:induction false} AfterExponentDigits(s: string)
    requires Accepting(ReadAll(ExpDigits, s))
    ensures AllDigits(s)
    decreases |s|
  {
    if s != "" {
      if !IsDigit(s[0]) { ReadStuck(s[1..]); }
      AfterExponentDigits(s[1..]);
    }
  }

  /** What may follow the digits of the fraction: more of them, then perhaps an exponent. */
  lemma {:induction false} FractionRead(s: string) returns (t: Token)
    requires Accepting(ReadAll(Places, s))
    ensures WellFormed(t.(whole := "0", point := true))
    ensures s == t.fraction + (t.marker + Exponent(t)) && t.sign == ""
    decreases |s|
  {
    if s == "" {
      t := Token("", "", false, "", "", "", "");
    } else if IsDigit(s[0]) {
      t := FractionRead(s[1..]);
      assert s == [s[0]] + s[1..];
      t := t.(fraction := [s[0]] + t.fraction);
    } else {
      if s[0] !in "eE" { ReadStuck(s[1..]); }
      var expSign, expDigits := ExponentRead(s[1..]);
      t := Token("", "", false, "", s[..1], expSign, expDigits);
    }
  }

  lemma MoreWhole(s: string, t: Token)
    requires s != "" && IsDigit(s[0]) && s[1..] == Unsigned(t)
    requires AllDigits(t.whole) && WellFormed(t.(whole := "0"))
    ensures var longer := t.(whole := [s[0]] + t.whole);
            WellFormed(longer) && Unsigned(longer) == s
  {
    var longer := t.(whole := [s[0]] + t.whole);
    assert Mantissa(longer) == [s[0]] + Mantissa(t);
    assert s == [s[0]] + s[1..];
  }

  lemma PointThenPlaces(s: string, t: Token)
    requires s != "" && s[0] == '.' && s[1..] == t.fraction + (t.marker + Exponent(t))
    ensures Unsigned(t.(whole := "", point := true)) == s
  {
    assert s == "." + s[1..];
  }

  lemma {:induction false} WholeRead(s: string) returns (t: Token)
    requires Accepting(ReadAll(Whole, s))
    ensures AllDigits(t.whole) && WellFormed(t.(whole := "0"))
    ensures Unsigned(t) == s && t.sign == ""
    decreases |s|
  {
    if s == "" {
      t := Token("", "", false, "", "", "", "");
    } else if IsDigit(s[0]) {
      var rest := WholeRead(s[1..]);
      hide Unsigned;
      MoreWhole(s, rest);
      t := rest.(whole := [s[0]] + rest.whole);
    } else if s[0] == '.' {
      var rest := FractionRead(s[1..]);
      hide Unsigned;
      PointThenPlaces(s, rest);
      t := rest.(whole := "", point := true);
    } else {
      if s[0] !in "eE" { ReadStuck(s[1..]); }
      var expSign, expDigits := ExponentRead(s[1..]);
      t := Token("", "", false, "", s[..1], expSign, expDigits);
    }
  }

  lemma UnsignedRead(s: string) returns (t: Token)
    requires Accepting(ReadAll(Signed, s))
    ensures WellFormed(t) && t.sign == "" && Unsigned(t) == s
  {
    hide Unsigned;
    if IsDigit(s[0]) {
      var rest := WholeRead(s[1..]);
      MoreWhole(s, rest);
      t := rest.(whole := [s[0]] + rest.whole);
    } else if s[0] == '.' {
      t := LeadRead(s);
    } else {
      ReadStuck(s[1..]);
    }
  }

  lemma LeadRead(s: string) returns (t: Token)
    requires s != "" && s[0] == '.' && Accepting(ReadAll(Lead, s[1..]))
    ensures WellFormed(t) && t.sign == "" && Unsigned(t) == s
  {
    hide Unsigned;
    var rest := s[1..];
    if !IsDigit(rest[0]) { ReadStuck(rest[1..]); }
    t := FractionRead(rest[1..]);
    t := t.(whole := "", point := true, fraction := [rest[0]] + t.fraction);
    assert rest == [rest[0]] + rest[1..];
    PointThenPlaces(s, t);
  }

  lemma TokenRead(s: string) returns (t: Token)
    requires Accepting(ReadAll(Start, s))
    ensures WellFormed(t) && Render(t) == s
  {
    if s[0] in "+-" {
      t := UnsignedRead(s[1..]);
      t := t.(sign := s[..1]);
      assert s == s[..1] + s[1..];
    } else {
      assert Read(Start, s[0]) == Read(Signed, s[0]);
      t := UnsignedRead(s);
    }
  }

  /** The automaton accepts exactly the matches of the pattern, so the cutting, which looks for
      single characters anywhere, decides what one pass from the left decides. */
  lemma OnePassDecides(s: string)
    ensures Accepting(ReadAll(Start, s)) <==> WellFormed(Split(s))
  {
    hide ReadAll, Render, Split, WellFormed;
    if WellFormed(Split(s)) {
      RenderSplit(s);
      ReadRender(Split(s));
    }
    if Accepting(ReadAll(Start, s)) {
      var t := TokenRead(s);
      SplitRender(t);
    }
  }

  // ---------------------------------------------------- what a token denotes

  function ExponentOf(t: Token): (e: int)
    requires WellFormed(t)
  {
    if t.expSign == "-" then -(NatOf(t.expDigits) as int) else NatOf(t.expDigits)
  }

  /** The exact Decimal the constructor builds from the token. */
  function Denotes(t: Token): (v: Decimal)
    requires WellFormed(t)
  {
    Finite(t.sign == "-", NatOf(t.whole + t.fraction), ExponentOf(t) - |t.fraction|)
  }

  /** What a token is worth: the number written without its point, over ten to the length of the
      fraction, times ten to the written exponent, or over it when that is marked negative. */
  lemma TokenIsWorth(t: Token)
    requires WellFormed(t)
    ensures var m: int := NatOf(t.whole + t.fraction);
            var n: int := if t.sign == "-" then 0 - m else m;
            var q, x := Pow(10, |t.fraction|), Pow(10, NatOf(t.expDigits));
            && Denotes(t).coefficient == m
            && (Denotes(t).negative <==> t.sign == "-")
            && (if t.expSign == "-" then HasValue(Denotes(t), n, q * x) else HasValue(Denotes(t), n * x, q))
  {
    var m := NatOf(t.whole + t.fraction);
    var x := NatOf(t.expDigits);
    var e: int := x;
    ShiftedValue(t.sign == "-", m, |t.fraction|, if t.expSign == "-" then 0 - e else e);
  }

  /** `v` is the number written, with no sign on zero. */
  ghost predicate ReadsAs(t: Token, v: Decimal) {
    && WellFormed(t) && v.Finite?
    && var m: int := NatOf(t.whole + t.fraction);
       var n: int := if t.sign == "-" then 0 - m else m;
       var q, x := Pow(10, |t.fraction|), Pow(10, NatOf(t.expDigits));
       && (v.negative <==> t.sign == "-" && m > 0)
       && (if t.expSign == "-" then HasValue(v, n, q * x) else HasValue(v, n * x, q))
  }

  lemma ReturnedIsWorth(t: Token, v: Decimal)
    requires WellFormed(t)
    requires v == if Denotes(t).coefficient == 0 then ZERO else Denotes(t)
    ensures ReadsAs(t, v)
  {
    hide WellFormed, Pow, NatOf;
    TokenIsWorth(t);
  }

  lemma IntegerAdmitted(n: int)
    ensures InEnvelope(Finite(n < 0, Abs(n), 0)) <==> Abs(n) < Pow(10, 256)
  {
    DigitCountAtMost(Abs(n), 256);
  }

  lemma MarkerIsLetter(s: string)
    ensures WellFormed(Split(s)) ==> (Split(s).marker == "" <==> 'e' !in s && 'E' !in s)
  {
    if WellFormed(Split(s)) {
      var t := Split(s);
      RenderSplit(s);
      MantissaFacts(t);
      hide Split, Mantissa;
      assert s == t.sign + (Mantissa(t) + (t.marker + Exponent(t)));
      if t.marker != "" {
        assert t.marker[0] in t.marker;
      }
    }
  }

  lemma IntegerIsWorth(n: int)
    ensures Num(Finite(n < 0, Abs(n), 0)) == n && Num(ZERO) == 0
  {
  }

  /** A coefficient with `k` digits after the point, moved by ten to the `e`. */
  lemma ShiftedValue(negative: bool, c: nat, k: nat, e: int)
    ensures var n: int := if negative then 0 - c else c;
            var v := Finite(negative, c, e - k);
            if e < 0 then HasValue(v, n, Pow(10, k) * Pow(10, -e)) else HasValue(v, n * Pow(10, e), Pow(10, k))
  {
    var n: int := if negative then 0 - c else c;
    if e < 0 {
      PowAdd(10, k, -e);
    } else if e >= k {
      PowAdd(10, e - k, k);
      MulAssoc(n, Pow(10, e - k), Pow(10, k));
    } else {
      PowAdd(10, e, k - e);
      MulAssoc(n, Pow(10, e), Pow(10, k - e));
    }
  }

  // ----------------------------------------------------------- the preflight

  lemma NatOfPrefix(s: string, i: nat)
    requires AllDigits(s) && i < |s|
    ensures AllDigits(s[..i]) && AllDigits(s[..i + 1])
    ensures NatOf(s[..i + 1]) == NatOf(s[..i]) * 10 + DigitValue(s[i])
  {
    assert s[..i + 1][..i] == s[..i];
  }

  /** The saturating parse returns the true exponent exactly when it lies in the window, however
      long the digit string. */
  method BoundedExponent(sign: string, digits: string, minimum: int, maximum: int) returns (r: Result<int>)
    requires IsSign(sign) && AllDigits(digits) && (digits == "" ==> sign == "")
    ensures var e: int := if sign == "-" then -(NatOf(digits) as int) else NatOf(digits);
            if digits == "" then r == Ok(0)
            else if minimum <= e <= maximum then r == Ok(e) else r.Err?
  {
    if sign + digits == "" {
      return Ok(0);
    }
    var saturation: nat := Max(Abs(minimum), Abs(maximum)) + 1;
    var magnitude: nat := 0;
    for i := 0 to |digits|
      invariant magnitude == Min(NatOf(digits[..i]), saturation + 1)
    {
      NatOfPrefix(digits, i);
      if magnitude <= saturation {
        magnitude := Min(saturation + 1, magnitude * 10 + DigitValue(digits[i]));
      }
    }
    assert digits[..|digits|] == digits;
    var value: int := if sign == "-" then -(magnitude as int) else magnitude;
    if value < minimum || value > maximum {
      return Err(BadText);
    }
    return Ok(value);
  }

  /** The text-only preflight accepts exactly the pattern matches of admitted length whose Decimal
      lies in the envelope, and answers whether that Decimal is zero. */
  method PreflightBoundedPresentation(value: string, allowExponent: bool) returns (r: Result<bool>)
    ensures r.Ok? <==>
              |value| <= MAX_DECIMAL_TEXT_LENGTH && WellFormed(Split(value)) &&
              (allowExponent || Split(value).marker == "") && InEnvelope(Denotes(Split(value)))
    ensures r.Ok? ==> (r.value <==> Denotes(Split(value)).coefficient == 0)
  {
    var t := Split(value);
    if |value| > MAX_DECIMAL_TEXT_LENGTH || !WellFormed(t) {
      return Err(BadText);
    }
    if t.marker != "" && !allowExponent {
      return Err(BadText);
    }
    r := PreflightToken(t);
  }

  method PreflightToken(t: Token) returns (r: Result<bool>)
    requires WellFormed(t)
    ensures r.Ok? <==> InEnvelope(Denotes(t))
    ensures r.Ok? ==> (r.value <==> Denotes(t).coefficient == 0)
  {
    hide LStripZeros, Pow;
    var coefficient := LStripZeros(t.whole + t.fraction);
    StrippedLength(t.whole + t.fraction);
    if coefficient == "" {
      return Ok(true);
    }
    var significantDigits := |coefficient|;
    if significantDigits > MAX_SIGNIFICANT_DIGITS {
      return Err(TooManySignificantDigits);
    }
    var fractionalLength := if t.point then |t.fraction| else 0;
    var minimumExp := fractionalLength - MAX_SCALE;
    var maximumExp := fractionalLength + MAX_INTEGER_DIGITS - significantDigits;
    var exponent := BoundedExponent(t.expSign, t.expDigits, minimumExp, maximumExp);
    if exponent.Err? {
      return Err(exponent.error);
    }
    var tupleExponent := exponent.value - fractionalLength;
    if Max(-tupleExponent, 0) > MAX_SCALE || Max(significantDigits + tupleExponent, 0) > MAX_INTEGER_DIGITS {
      return Err(TooManyIntegerDigits);
    }
    return Ok(false);
  }

  // ------------------------------------------------------ the public boundary

  datatype Input =
    | DecimalInput(decimal: Decimal)
    | IntInput(n: int)
    | TextInput(text: string)
    | OtherInput

  /** The value an input stands for, when it is one of the three admitted kinds. */
  ghost function Stands(input: Input, allowExponent: bool): (v: Decimal)
  {
    match input
    case DecimalInput(d) => d
    case IntInput(n) => Finite(n < 0, Abs(n), 0)
    case TextInput(s) =>
      if |s| <= MAX_DECIMAL_TEXT_LENGTH && WellFormed(Split(s)) && (allowExponent || Split(s).marker == "")
      then Denotes(Split(s)) else Special
    case OtherInput => Special
  }

  /** Admission is exactly the envelope of the value, which is returned unchanged except that
      every zero becomes plain zero; the re-validation after construction never raises. */
  method ParseBoundedExactDecimal(input: Input, allowExponent: bool) returns (r: Result<Decimal>)
    ensures r.Ok? <==> InEnvelope(Stands(input, allowExponent))
    ensures r.Ok? ==> var v := Stands(input, allowExponent);
                      r.value == (if v.coefficient == 0 then ZERO else v)
    ensures input.DecimalInput? ==> (r.Ok? <==> InEnvelope(input.decimal))
    ensures input.IntInput? ==> (r.Ok? <==> Abs(input.n) < Pow(10, 256))
    ensures r.Ok? && input.IntInput? ==> r.value.exponent == 0 && Num(r.value) == input.n
    ensures input.TextInput? ==>
              (r.Ok? <==> |input.text| <= MAX_DECIMAL_TEXT_LENGTH && Accepting(ReadAll(Start, input.text)) &&
                          (allowExponent || ('e' !in input.text && 'E' !in input.text)) &&
                          InEnvelope(Stands(input, true)))
    ensures r.Ok? && input.TextInput? ==>
              Render(Split(input.text)) == input.text && ReadsAs(Split(input.text), r.value)
  {
    hide Split, WellFormed, Render, Pow, NatOf, Num, Den, HasValue, Denotes, ReadsAs;
    match input
    case DecimalInput(d) =>
      var admitted := ValidateDecimalEnvelope(d);
      if admitted.Err? {
        return Err(admitted.error);
      }
      return Ok(if d.coefficient == 0 then ZERO else d);
    case IntInput(n) =>
      IntegerAdmitted(n);
      if n == 0 {
        return Ok(ZERO);
      }
      var limit := Min(MAX_SIGNIFICANT_DIGITS, MAX_INTEGER_DIGITS);
      var count := IntegerDigitCount(n, limit);
      if count > limit {
        return Err(TooManyIntegerDigits);
      }
      var result := Finite(n < 0, Abs(n), 0);
      IntegerIsWorth(n);
      var again := ValidateDecimalEnvelope(result);
      assert again.Ok?;
      return Ok(result);
    case TextInput(s) =>
      RenderSplit(s);
      OnePassDecides(s);
      MarkerIsLetter(s);
      var zero := PreflightBoundedPresentation(s, allowExponent);
      if zero.Err? {
        return Err(zero.error);
      }
      if zero.value {
        ReturnedIsWorth(Split(s), ZERO);
        return Ok(ZERO);
      }
      var result := Denotes(Split(s));
      ReturnedIsWorth(Split(s), result);
      var again := ValidateDecimalEnvelope(result);
      assert again.Ok?;
      return Ok(result);
    case OtherInput =>
      return Err(BadText);
  }

  /** Canonical text is presentation text with the same value: what the strict wire parser
      accepts, the permissive boundary accepts and reads the same. */
  lemma WireTextIsPresentation(s: string)
    requires IsValidDecimalScalar(s)
    ensures WellFormed(Split(s)) && Split(s).marker == ""
    ensures Denotes(Split(s)) == ParseCanonicalDecimalText(s).value
  {
    WireGeometry(s);
    JoinCut(s);
    if s == "0" {
      ZeroText();
    }
    PiecesAreToken(Cut(s));
  }

  lemma PiecesAreToken(p: Pieces)
    requires AllDigits(p.whole) && p.whole != "" && AllDigits(p.fraction) && (!p.point ==> p.fraction == "")
    ensures WellFormed(Split(Join(p))) && Split(Join(p)).marker == ""
    ensures Denotes(Split(Join(p))) == DecimalOf(p)
  {
    hide Split;
    var t := TokenOf(p);
    TokenOfRenders(p);
    SplitRender(t);
    assert Denotes(t) == DecimalOf(p);
  }

  function TokenOf(p: Pieces): Token {
    Token(if p.negative then "-" else "", p.whole, p.point, p.fraction, "", "", "")
  }

  lemma TokenOfRenders(p: Pieces)
    ensures Render(TokenOf(p)) == Join(p)
  {
    var t := TokenOf(p);
    assert t.marker + Exponent(t) == "";
    assert Mantissa(t) + "" == Body(p);
  }
}
