/** Canonical decimal text and the wire grammar: printing an admitted Decimal and parsing wire
    text are inverse to each other up to value, and exactly inverse on wire text. */
module DecimalText {
  import opened Arithmetic
  import opened ExactDecimal
  import opened ExactOperations
  import opened DigitText

  const MAX_DECIMAL_TEXT_LENGTH := 259

  // ----------------------------------------------------------- wire grammar

  /** A wire text cut at its sign and its point, as `str.partition` cuts it. */
  datatype Pieces = Pieces(negative: bool, whole: string, point: bool, fraction: string)

  function Cut(s: string): (p: Pieces)
  {
    var negative := s != "" && s[0] == '-';
    CutUnsigned(negative, if negative then s[1..] else s)
  }

  function CutUnsigned(negative: bool, unsigned: string): (p: Pieces)
  {
    var i := Find(unsigned, '.');
    if i < 0 then Pieces(negative, unsigned, false, "")
    else Pieces(negative, unsigned[..i], true, unsigned[i + 1..])
  }

  function Sign(negative: bool): (s: string)
    ensures s == "" || s == "-"
  {
    if negative then "-" else ""
  }

  function Body(p: Pieces): string {
    p.whole + (if p.point then "." + p.fraction else "")
  }

  function Join(p: Pieces): string {
    Sign(p.negative) + Body(p)
  }

  lemma JoinCut(s: string)
    ensures Join(Cut(s)) == s
  {
    var negative := s != "" && s[0] == '-';
    var unsigned := if negative then s[1..] else s;
    assert s == Sign(negative) + unsigned;
    assert Body(Cut(s)) == unsigned by {
      var i := Find(unsigned, '.');
      if i >= 0 { SplitAt(unsigned, i); }
    }
  }

  lemma SplitAt(s: string, i: nat)
    requires i < |s|
    ensures s == s[..i] + ([s[i]] + s[i + 1..])
  {
  }

  lemma CutJoin(p: Pieces)
    requires AllDigits(p.whole) && p.whole != ""
    requires !p.point ==> p.fraction == ""
    ensures Cut(Join(p)) == p
  {
    assert Body(p) != "" && Body(p)[0] == p.whole[0];
    hide CutUnsigned, Body;
    SignCut(p.negative, Body(p));
    CutBody(p);
  }

  lemma SignCut(negative: bool, u: string)
    requires u != "" && u[0] != '-'
    ensures var s := Sign(negative) + u;
            (s != "" && s[0] == '-') == negative && (if negative then s[1..] else s) == u
  {
  }

  lemma CutBody(p: Pieces)
    requires AllDigits(p.whole)
    requires !p.point ==> p.fraction == ""
    ensures CutUnsigned(p.negative, Body(p)) == p
  {
    if p.point {
      FindAfter(p.whole, '.', p.fraction);
      assert Body(p) == p.whole + ['.'] + p.fraction;
    } else {
      assert Body(p) == p.whole;
    }
  }

  lemma ZeroText()
    ensures Cut("0") == Pieces(false, "0", false, "")
    ensures "0" + "" == "0" && NatOf("0") == 0
  {
    assert "0"[..0] == "";
  }

  /** The nonzero alternatives of the Decimal pattern: no superfluous leading zero, and a fraction,
      if there is one, ending in a nonzero digit. */
  predicate NonzeroPattern(p: Pieces) {
    && AllDigits(p.whole) && p.whole != ""
    && AllDigits(p.fraction)
    && (p.whole[0] != '0' || (p.whole == "0" && p.point))
    && (if p.point then p.fraction != "" && p.fraction[|p.fraction| - 1] != '0' else p.fraction == "")
  }

  predicate WirePattern(s: string) {
    s == "0" || NonzeroPattern(Cut(s))
  }

  /** The geometry test the generated binding applies to the text itself. */
  predicate WithinDecimalEnvelope(s: string) {
    WithinPieces(Cut(s))
  }

  predicate WithinPieces(p: Pieces) {
    var magnitude := if p.whole == "0" then 0 else |p.whole|;
    var scale := if p.point then |p.fraction| else 0;
    var significant := Max(|LStripZeros(p.whole + p.fraction)|, 1);
    significant <= MAX_SIGNIFICANT_DIGITS && scale <= MAX_SCALE && magnitude <= MAX_INTEGER_DIGITS
  }

  predicate IsValidDecimalScalar(s: string) {
    |s| <= MAX_DECIMAL_TEXT_LENGTH && WirePattern(s) && WithinDecimalEnvelope(s)
  }

  /** The Decimal that Python's constructor builds from plain sign-digits-point text. */
  function DecimalOf(p: Pieces): (v: Decimal)
    requires AllDigits(p.whole) && AllDigits(p.fraction)
  {
    Finite(p.negative, NatOf(p.whole + p.fraction), -|p.fraction|)
  }

  function ParseCanonicalDecimalText(s: string): (r: Result<Decimal>)
    ensures r.Ok? <==> IsValidDecimalScalar(s)
  {
    if !IsValidDecimalScalar(s) then Err(BadText)
    else
      WireGeometry(s);
      var v := DecimalOf(Cut(s));
      if InEnvelope(v) then Ok(v) else Err(NotFinite)
  }

  // --------------------------------------------------------------- printing

  /** Python's `rstrip(c)`. */
  function RStrip(s: string, c: char): (r: string)
    ensures r <= s
  {
    if s != "" && s[|s| - 1] == c then RStrip(s[..|s| - 1], c) else s
  }

  /** Python's `format(value, "f")` of an unsigned nonzero Decimal. */
  function FixedBody(coefficient: nat, exponent: int): string {
    var digits := Text(coefficient);
    var k := -exponent;
    if exponent >= 0 then digits + Zeros(exponent)
    else if |digits| > k then digits[..|digits| - k] + "." + digits[|digits| - k..]
    else "0." + Zeros(k - |digits|) + digits
  }

  function Trim(fixed: string): string {
    if '.' in fixed then RStrip(RStrip(fixed, '0'), '.') else fixed
  }

  function CanonicalText(v: Decimal): (s: string)
    requires v.Finite?
  {
    if v.coefficient == 0 then "0"
    else Trim(Sign(v.negative) + FixedBody(v.coefficient, v.exponent))
  }

  /** Printing is refused exactly outside the envelope. What is printed is wire text of admitted
      length, which the strict parser reads as the same value. */
  function CanonicalDecimalText(v: Decimal): (r: Result<string>)
    ensures r.Ok? <==> InEnvelope(v)
    ensures r.Ok? ==> |r.value| <= MAX_DECIMAL_TEXT_LENGTH && IsValidDecimalScalar(r.value)
    ensures r.Ok? ==> var back := ParseCanonicalDecimalText(r.value);
                      back.Ok? && InEnvelope(back.value) && Units(back.value) == Units(v)
  {
    if InEnvelope(v) then CanonicalTextParsesBack(v); Ok(CanonicalText(v)) else Err(NotFinite)
  }

  // ------------------------------------------- the plain spelling of c / 10^k

  function PlainPieces(negative: bool, c: nat, k: nat): (p: Pieces)
    ensures AllDigits(p.whole) && p.whole != "" && AllDigits(p.fraction) && |p.fraction| == k
    ensures p.point <==> k > 0
    ensures p.whole + p.fraction == PadLeft(Text(c), k + 1)
  {
    var padded := PadLeft(Text(c), k + 1);
    Pieces(negative, padded[..|padded| - k], k > 0, padded[|padded| - k..])
  }

  function Plain(c: nat, k: nat): string {
    Join(PlainPieces(false, c, k))
  }

  /** The least scale: strip trailing zeros while there is a fraction to strip. */
  function Lowest(c: nat, k: nat): (r: (nat, nat))
    requires c > 0
    ensures r.0 > 0 && r.1 <= k && (r.1 == 0 || r.0 % 10 != 0)
    decreases k
  {
    if k > 0 && c % 10 == 0 then Lowest(c / 10, k - 1) else (c, k)
  }

  lemma {:induction false} LowestValue(c: nat, k: nat)
    requires c > 0
    ensures c == Lowest(c, k).0 * Pow(10, k - Lowest(c, k).1)
    decreases k
  {
    if k > 0 && c % 10 == 0 {
      LowestValue(c / 10, k - 1);
      var (d, j) := Lowest(c, k);
      assert Pow(10, k - j) == 10 * Pow(10, k - 1 - j);
      assert d * (10 * Pow(10, k - 1 - j)) == (d * Pow(10, k - 1 - j)) * 10 by {
        MulAssoc(d, Pow(10, k - 1 - j), 10);
      }
    } else {
      assert Pow(10, 0) == 1;
    }
  }

  /** Two least-scale spellings of one value coincide. */
  lemma LowestUnique(c: nat, k: nat, d: nat, j: nat, n: nat)
    requires k <= n && j <= n
    requires (k == 0 || c % 10 != 0) && (j == 0 || d % 10 != 0)
    requires c * Pow(10, n - k) == d * Pow(10, n - j)
    ensures c == d && k == j
  {
    if k < j {
      LowestStep(c, k, d, j, n);
    } else if j < k {
      LowestStep(d, j, c, k, n);
    } else {
      MulCancel(c, d, Pow(10, n - k));
    }
  }

  lemma LowestStep(c: nat, k: nat, d: nat, j: nat, n: nat)
    requires k < j <= n && c * Pow(10, n - k) == d * Pow(10, n - j)
    ensures d % 10 == 0
  {
    var t, q := Pow(10, j - k - 1), Pow(10, n - j);
    PowAdd(10, j - k, n - j);
    assert Pow(10, j - k) == 10 * t && Pow(10, n - k) == (10 * t) * q && q > 0;
    hide Pow;
    assert c * ((10 * t) * q) == (c * (10 * t)) * q by { MulAssoc(c, 10 * t, q); }
    MulCancel(c * (10 * t), d, q);
    assert c * (10 * t) == 10 * (c * t) by { MulAssoc(c, 10, t); MulAssoc(10, c, t); }
  }

  /** The exact operations answer in normal form, and a value has only one. */
  lemma NormalizedUnique(v: Decimal, w: Decimal)
    requires InEnvelope(v) && InEnvelope(w) && Normalized(v) && Normalized(w) && Units(v) == Units(w)
    ensures v == w
  {
    if v.coefficient > 0 {
      LowestUnique(v.coefficient, -v.exponent, w.coefficient, -w.exponent, MAX_SCALE);
    }
  }

  /** The scale and coefficient at which a Decimal is printed. */
  function Lowered(v: Decimal): (r: (nat, nat))
    requires v.Finite? && v.coefficient > 0
    ensures r.0 > 0 && (r.1 == 0 || r.0 % 10 != 0)
  {
    if v.exponent >= 0 then DigitCountShift(v.coefficient, v.exponent); (v.coefficient * Pow(10, v.exponent), 0)
    else Lowest(v.coefficient, -v.exponent)
  }

  lemma PlainOfShift(c: nat, e: nat)
    requires c > 0
    ensures c * Pow(10, e) > 0
    ensures Text(c) + Zeros(e) == Text(c * Pow(10, e))
  {
    NatOfText(c);
    NatOfTrailingZeros(Text(c), e);
    DigitCountShift(c, e);
    TextNatOf(Text(c) + Zeros(e));
  }

  lemma PlainWhole(c: nat)
    ensures Plain(c, 0) == Text(c)
  {
    var padded := PadLeft(Text(c), 1);
    assert padded[..|padded| - 0] == padded;
  }

  lemma FixedIsPlain(c: nat, k: nat)
    requires c > 0 && k > 0
    ensures FixedBody(c, 0 - k) == Plain(c, k)
  {
    hide Text, Zeros, PadLeft;
    var digits := Text(c);
    var padded := PadLeft(digits, k + 1);
    if |digits| <= k {
      PadShort(digits, k);
      HeadSplit(Zeros(k - |digits|), digits);
    } else {
      PadLong(digits, k);
      PointConcat(digits[..|digits| - k], "", digits[|digits| - k..]);
    }
  }

  lemma PadShort(digits: string, k: nat)
    requires |digits| <= k
    ensures PadLeft(digits, k + 1) == "0" + (Zeros(k - |digits|) + digits)
  {
    hide Zeros;
    var m := k - |digits|;
    ZerosAreZeros("0" + Zeros(m));
    PointlessConcat("0", Zeros(m), digits);
  }

  lemma PadLong(digits: string, k: nat)
    requires |digits| > k
    ensures PadLeft(digits, k + 1) == digits
  {
  }

  lemma HeadSplit(z: string, d: string)
    ensures var s := "0" + (z + d); s[..1] == "0" && s[1..] == z + d
    ensures "0" + ("." + (z + d)) == "0." + z + d
  {
  }

  /** A trailing zero of the coefficient is a trailing zero of the text. */
  lemma PlainTrailingZero(c: nat, k: nat)
    requires c > 0 && c % 10 == 0 && k > 0
    ensures k > 1 ==> Plain(c, k) == Plain(c / 10, k - 1) + "0"
    ensures k == 1 ==> Plain(c, k) == Plain(c / 10, 0) + ".0"
  {
    var t := Text(c / 10);
    assert Text(c) == t + "0";
    var q := PadLeft(t, k);
    PadSnoc(t, k, '0');
    var w := |q| - (k - 1);
    SnocSplit(q, w, '0');
    var p, r := PlainPieces(false, c, k), PlainPieces(false, c / 10, k - 1);
    assert p.whole == r.whole && p.fraction == r.fraction + "0";
    PointConcat(r.whole, r.fraction, "0");
    if k == 1 {
      assert r.fraction == "";
      assert "." + "0" == ".0";
    }
  }

  lemma PadSnoc(t: string, k: nat, c: char)
    ensures PadLeft(t + [c], k + 1) == PadLeft(t, k) + [c]
  {
    if |t| < k {
      PointlessConcat(Zeros(k - |t|), t, [c]);
    }
  }

  lemma PointlessConcat(a: string, b: string, c: string)
    ensures a + (b + c) == (a + b) + c
  {
  }

  lemma PointConcat(a: string, b: string, c: string)
    ensures a + ("." + (b + c)) == (a + ("." + b)) + c
  {
  }

  lemma SnocSplit(q: string, w: nat, c: char)
    requires w <= |q|
    ensures (q + [c])[..w] == q[..w] && (q + [c])[w..] == q[w..] + [c]
  {
  }

  lemma RStripPrefixed(p: string, s: string, c: char)
    requires p == "" || (|p| == 1 && p[0] != c)
    ensures RStrip(p + s, c) == p + RStrip(s, c)
    decreases |s|
  {
    if s == "" {
      assert p + s == p;
    } else if s[|s| - 1] == c {
      assert (p + s)[..|p + s| - 1] == p + s[..|s| - 1];
      RStripPrefixed(p, s[..|s| - 1], c);
    } else {
      assert (p + s)[|p + s| - 1] == s[|s| - 1];
    }
  }

  lemma RStripLast(s: string, c: char)
    ensures RStrip(s + [c], c) == RStrip(s, c)
  {
    assert (s + [c])[..|s + [c]| - 1] == s;
  }

  lemma RStripKeeps(s: string, c: char)
    requires s == "" || s[|s| - 1] != c
    ensures RStrip(s, c) == s
  {
  }

  /** Stripping zeros and then the point leaves the least-scale spelling. */
  lemma {:induction false} StripPlain(c: nat, k: nat)
    requires c > 0 && k > 0
    ensures RStrip(RStrip(Plain(c, k), '0'), '.') == Plain(Lowest(c, k).0, Lowest(c, k).1)
    decreases k
  {
    if c % 10 != 0 {
      PlainLastDigit(c, k);
      RStripKeeps(Plain(c, k), '0');
      RStripKeeps(Plain(c, k), '.');
    } else if k > 1 {
      PlainTrailingZero(c, k);
      RStripLast(Plain(c / 10, k - 1), '0');
      StripPlain(c / 10, k - 1);
    } else {
      StripWhole(c);
    }
  }

  lemma StripWhole(c: nat)
    requires c > 0 && c % 10 == 0
    ensures RStrip(RStrip(Plain(c, 1), '0'), '.') == Plain(c / 10, 0)
  {
    PlainTrailingZero(c, 1);
    var s := Plain(c / 10, 0);
    PlainWhole(c / 10);
    assert s + ".0" == (s + ".") + ['0'];
    RStripLast(s + ".", '0');
    RStripKeeps(s + ".", '0');
    RStripLast(s, '.');
    RStripKeeps(s, '.');
  }

  lemma PlainLastDigit(c: nat, k: nat)
    requires c % 10 != 0 && k > 0
    ensures var s := Plain(c, k); s != "" && IsDigit(s[|s| - 1]) && s[|s| - 1] != '0'
    ensures var f := PlainPieces(false, c, k).fraction; f != "" && f[|f| - 1] != '0'
  {
    var padded := PadLeft(Text(c), k + 1);
    var t := Text(c);
    assert t[|t| - 1] == DigitChar(c % 10);
    assert padded[|padded| - 1] == t[|t| - 1];
    var p := PlainPieces(false, c, k);
    assert Plain(c, k) == p.whole + ("." + p.fraction);
  }

  lemma PlainHasPoint(c: nat, k: nat)
    ensures '.' in Plain(c, k) <==> k > 0
  {
    var p := PlainPieces(false, c, k);
    if k > 0 {
      assert Plain(c, k)[|p.whole|] == '.';
    } else {
      PlainWhole(c);
    }
  }

  lemma SignedPlain(negative: bool, c: nat, k: nat)
    ensures Join(PlainPieces(negative, c, k)) == Sign(negative) + Plain(c, k)
    ensures '.' in Join(PlainPieces(negative, c, k)) <==> k > 0
  {
    PlainHasPoint(c, k);
    var p, q := PlainPieces(negative, c, k), PlainPieces(false, c, k);
    assert Body(p) == Body(q) == Plain(c, k);
  }

  /** What is printed: the sign, and the plain spelling at the least scale. */
  lemma PrintedIsPlain(v: Decimal)
    requires v.Finite? && v.coefficient > 0
    ensures CanonicalText(v) == Join(PlainPieces(v.negative, Lowered(v).0, Lowered(v).1))
  {
    if v.exponent >= 0 {
      PrintedWhole(v.negative, v.coefficient, v.exponent);
    } else {
      PrintedFraction(v.negative, v.coefficient, v.exponent);
    }
  }

  lemma PrintedWhole(negative: bool, c: nat, e: nat)
    requires c > 0
    ensures Trim(Sign(negative) + FixedBody(c, e)) == Join(PlainPieces(negative, c * Pow(10, e), 0))
  {
    var d := c * Pow(10, e);
    PlainOfShift(c, e);
    PlainWhole(d);
    SignedPlain(negative, d, 0);
    assert FixedBody(c, e) == Plain(d, 0);
  }

  lemma PrintedFraction(negative: bool, c: nat, e: int)
    requires c > 0 && e < 0
    ensures Trim(Sign(negative) + FixedBody(c, e)) ==
              Join(PlainPieces(negative, Lowest(c, -e).0, Lowest(c, -e).1))
  {
    hide *;
    var sign := Sign(negative);
    FixedIsPlain(c, -e);
    TrimPlain(sign, c, -e);
    SignedPlain(negative, Lowest(c, -e).0, Lowest(c, -e).1);
  }

  lemma TrimPlain(sign: string, c: nat, k: nat)
    requires c > 0 && k > 0 && (sign == "" || sign == "-")
    ensures Trim(sign + Plain(c, k)) == sign + Plain(Lowest(c, k).0, Lowest(c, k).1)
  {
    PlainHasPoint(c, k);
    assert '.' in sign + Plain(c, k);
    StripSigned(sign, c, k);
  }

  lemma StripSigned(sign: string, c: nat, k: nat)
    requires c > 0 && k > 0 && (sign == "" || sign == "-")
    ensures RStrip(RStrip(sign + Plain(c, k), '0'), '.') == sign + Plain(Lowest(c, k).0, Lowest(c, k).1)
  {
    StripPlain(c, k);
    RStripPrefixed(sign, Plain(c, k), '0');
    RStripPrefixed(sign, RStrip(Plain(c, k), '0'), '.');
  }

  // --------------------------------------------------------------- theorems

  lemma PlainParses(negative: bool, c: nat, k: nat)
    ensures Cut(Join(PlainPieces(negative, c, k))) == PlainPieces(negative, c, k)
    ensures DecimalOf(PlainPieces(negative, c, k)) == Finite(negative, c, 0 - k)
  {
    var p := PlainPieces(negative, c, k);
    CutJoin(p);
    PlainDenotes(negative, c, k);
  }

  lemma PlainDenotes(negative: bool, c: nat, k: nat)
    ensures DecimalOf(PlainPieces(negative, c, k)) == Finite(negative, c, 0 - k)
  {
    PaddedValue(c, k + 1);
  }

  lemma PaddedValue(c: nat, width: nat)
    ensures AllDigits(PadLeft(Text(c), width)) && NatOf(PadLeft(Text(c), width)) == c
  {
    NatOfText(c);
    if |Text(c)| < width {
      NatOfLeadingZeros(width - |Text(c)|, Text(c));
    }
  }

  lemma PlainMatchesPattern(negative: bool, c: nat, k: nat)
    requires c > 0 && (k == 0 || c % 10 != 0)
    ensures NonzeroPattern(PlainPieces(negative, c, k))
  {
    var p := PlainPieces(negative, c, k);
    var t := Text(c);
    NatOfText(c);
    if k > 0 {
      PlainLastDigit(c, k);
    }
    if |t| > k {
      assert PadLeft(t, k + 1) == t;
      assert p.whole[0] == t[0];
    } else {
      assert p.whole == PadLeft(t, k + 1)[..1];
    }
  }

  lemma DigitsPadded(p: Pieces)
    requires NonzeroPattern(p)
    ensures var s := p.whole + p.fraction; NatOf(s) > 0 && PadLeft(Text(NatOf(s)), |p.fraction| + 1) == s
  {
    if p.whole[0] != '0' {
      DigitsUnpadded(p.whole, p.fraction);
    } else {
      DigitsBare(p.fraction);
    }
  }

  lemma DigitsUnpadded(w: string, f: string)
    requires AllDigits(w) && AllDigits(f) && w != "" && w[0] != '0'
    ensures NatOf(w + f) > 0 && PadLeft(Text(NatOf(w + f)), |f| + 1) == w + f
  {
    TextNatOf(w + f);
  }

  lemma DigitsBare(f: string)
    requires AllDigits(f) && f != "" && f[|f| - 1] != '0'
    ensures NatOf("0" + f) > 0 && PadLeft(Text(NatOf("0" + f)), |f| + 1) == "0" + f
  {
    hide PadLeft, Text, Zeros, NatOf;
    var s := "0" + f;
    PadText(s);
    assert s[|s| - 1] == f[|f| - 1];
    NonzeroLastDigit(s);
  }

  lemma NonzeroLastDigit(s: string)
    requires AllDigits(s) && s != "" && s[|s| - 1] != '0'
    ensures NatOf(s) > 0 && NatOf(s) % 10 != 0
  {
    var d := DigitValue(s[|s| - 1]);
    assert d > 0 && NatOf(s) == NatOf(s[..|s| - 1]) * 10 + d;
    hide NatOf;
    DivModUnique(NatOf(s), 10, NatOf(s[..|s| - 1]), d);
  }

  /** Conversely the pattern only matches plain least-scale spellings. */
  lemma PatternIsPlain(p: Pieces)
    requires NonzeroPattern(p)
    ensures var c := NatOf(p.whole + p.fraction);
            c > 0 && (p.fraction == "" || c % 10 != 0) && p == PlainPieces(p.negative, c, |p.fraction|)
  {
    hide NatOf, Text, PadLeft;
    var s, k := p.whole + p.fraction, |p.fraction|;
    DigitsPadded(p);
    if k > 0 {
      assert s[|s| - 1] == p.fraction[k - 1];
      NonzeroLastDigit(s);
    }
    SliceConcat(p.whole, p.fraction);
  }

  lemma SliceConcat(a: string, b: string)
    ensures (a + b)[..|a + b| - |b|] == a && (a + b)[|a + b| - |b|..] == b
  {
  }

  /** On pattern text the binding's geometry test is the envelope of the parsed value, and the
      length limit adds nothing. */
  lemma WireGeometry(s: string)
    requires WirePattern(s)
    ensures AllDigits(Cut(s).whole) && AllDigits(Cut(s).fraction)
    ensures WithinDecimalEnvelope(s) <==> InEnvelope(DecimalOf(Cut(s)))
    ensures WithinDecimalEnvelope(s) ==> |s| <= MAX_DECIMAL_TEXT_LENGTH
  {
    if s == "0" {
      ZeroText();
    } else {
      JoinCut(s);
      PatternGeometry(Cut(s));
      PatternWithin(Cut(s));
    }
  }

  lemma PatternWithin(p: Pieces)
    requires NonzeroPattern(p)
    ensures WithinPieces(p) <==> InEnvelope(DecimalOf(p))
    ensures WithinPieces(p) ==> |p.whole| + |p.fraction| <= MAX_SCALE + 1
  {
    hide WithinPieces, InEnvelope, DecimalOf, NatOf, DigitCount, LStripZeros, Join;
    PatternGeometry(p);
    var digits := DigitCount(NatOf(p.whole + p.fraction));
    WithinByDigits(p, digits);
    EnvelopeByDigits(p, digits);
    hide NonzeroPattern, AllDigits;
    GeometryIsEnvelope(digits, |p.whole|, |p.fraction|, p.whole == "0");
  }

  /** The text test in terms of the significant digits. */
  lemma WithinByDigits(p: Pieces, digits: nat)
    requires NonzeroPattern(p) && digits == Max(|LStripZeros(p.whole + p.fraction)|, 1)
    ensures var magnitude := if p.whole == "0" then 0 else |p.whole|;
            WithinPieces(p) <==>
            digits <= MAX_SIGNIFICANT_DIGITS && |p.fraction| <= MAX_SCALE && magnitude <= MAX_INTEGER_DIGITS
  {
    hide LStripZeros, AllDigits;
  }

  /** The envelope in terms of the same digits. */
  lemma EnvelopeByDigits(p: Pieces, digits: nat)
    requires NonzeroPattern(p) && NatOf(p.whole + p.fraction) > 0 && digits == DigitCount(NatOf(p.whole + p.fraction))
    ensures InEnvelope(DecimalOf(p)) <==>
            digits <= MAX_SIGNIFICANT_DIGITS && |p.fraction| <= MAX_SCALE && digits - |p.fraction| <= MAX_INTEGER_DIGITS
  {
    hide NatOf, DigitCount;
  }

  lemma GeometryIsEnvelope(digits: nat, w: nat, f: nat, bare: bool)
    requires bare ==> w == 1 && digits <= f
    requires !bare ==> digits == w + f
    ensures var magnitude := if bare then 0 else w;
            (digits <= MAX_SIGNIFICANT_DIGITS && f <= MAX_SCALE && magnitude <= MAX_INTEGER_DIGITS) <==>
            (digits <= MAX_SIGNIFICANT_DIGITS && f <= MAX_SCALE && digits - f <= MAX_INTEGER_DIGITS)
    ensures digits <= MAX_SIGNIFICANT_DIGITS && f <= MAX_SCALE ==> w + f <= MAX_SCALE + 1
  {
  }

  lemma JoinLength(p: Pieces)
    requires !p.point ==> p.fraction == ""
    ensures |Join(p)| == (if p.negative then 1 else 0) + |p.whole| + (if p.point then 1 else 0) + |p.fraction|
  {
  }

  lemma PatternGeometry(p: Pieces)
    requires NonzeroPattern(p)
    ensures var c := NatOf(p.whole + p.fraction);
            c > 0 && Max(|LStripZeros(p.whole + p.fraction)|, 1) == DigitCount(c) <= |p.whole| + |p.fraction| &&
            (p.whole == "0" ==> DigitCount(c) <= |p.fraction|) &&
            (p.whole != "0" ==> DigitCount(c) == |p.whole| + |p.fraction|)
    ensures |Join(p)| == (if p.negative then 1 else 0) + |p.whole| + (if p.point then 1 else 0) + |p.fraction|
  {
    hide NatOf, LStripZeros, Text, DigitCount, PlainPieces, Join;
    var digits := p.whole + p.fraction;
    StrippedLength(digits);
    PatternIsPlain(p);
    JoinLength(p);
    assert p.whole[0] == '0' <==> p.whole == "0";
    hide AllDigits, NonzeroPattern;
    if p.whole[0] != '0' {
      TextNatOf(digits);
    } else {
      assert digits[0] == '0' && digits[1..] == p.fraction;
    }
  }

  /** Every admitted Decimal prints to valid wire text of at most 259 characters that parses back
      to the same value. */
  lemma CanonicalTextParsesBack(v: Decimal)
    requires InEnvelope(v)
    ensures |CanonicalText(v)| <= MAX_DECIMAL_TEXT_LENGTH
    ensures var r := ParseCanonicalDecimalText(CanonicalText(v));
            r.Ok? && InEnvelope(r.value) && Units(r.value) == Units(v)
  {
    if v.coefficient == 0 {
      ZeroText();
      WireGeometry("0");
    } else {
      var (d, j) := Lowered(v);
      PrintedIsPlain(v);
      LoweredUnits(v);
      PlainIsWire(v.negative, d, j);
    }
  }

  lemma PlainIsWire(negative: bool, c: nat, k: nat)
    requires c > 0 && (k == 0 || c % 10 != 0) && InEnvelope(Finite(negative, c, 0 - k))
    ensures var s := Join(PlainPieces(negative, c, k));
            IsValidDecimalScalar(s) && ParseCanonicalDecimalText(s) == Ok(Finite(negative, c, 0 - k))
  {
    var s := Join(PlainPieces(negative, c, k));
    PlainParses(negative, c, k);
    PlainMatchesPattern(negative, c, k);
    WireGeometry(s);
  }

  lemma LoweredUnits(v: Decimal)
    requires InEnvelope(v) && v.coefficient > 0
    ensures var (d, j) := Lowered(v);
            j <= MAX_SCALE && InEnvelope(Finite(v.negative, d, 0 - j)) &&
            Units(Finite(v.negative, d, 0 - j)) == Units(v) &&
            Abs(Units(v)) == d * Pow(10, MAX_SCALE - j)
  {
    LoweredAt(v.coefficient, v.exponent, Lowered(v).0, Lowered(v).1, MAX_SCALE);
  }

  lemma LoweredAt(c: nat, e: int, d: nat, j: nat, n: nat)
    requires c > 0 && -e <= n
    requires if e >= 0 then d == c * Pow(10, e) && j == 0 else (d, j) == Lowest(c, -e)
    ensures d > 0 && j <= n && d * Pow(10, n - j) == c * Pow(10, e + n)
    ensures DigitCount(d) <= DigitCount(c) + Max(e, 0) && DigitCount(d) - j == DigitCount(c) + e
  {
    if e >= 0 {
      PowAdd(10, e, n);
      MulAssoc(c, Pow(10, e), Pow(10, n));
      DigitCountShift(c, e);
    } else {
      LowestValue(c, -e);
      DigitCountShift(d, -e - j);
      PowAdd(10, -e - j, e + n);
      MulAssoc(d, Pow(10, -e - j), Pow(10, e + n));
    }
  }

  /** Two admitted Decimals print alike exactly when they are equal in value. */
  lemma CanonicalTextIsIdentity(v: Decimal, w: Decimal)
    requires InEnvelope(v) && InEnvelope(w)
    ensures CanonicalText(v) == CanonicalText(w) <==> Units(v) == Units(w)
  {
    CanonicalTextParsesBack(v);
    CanonicalTextParsesBack(w);
    if Units(v) == Units(w) && v.coefficient > 0 {
      SameValueSameText(v, w);
    }
  }

  lemma SameValueSameText(v: Decimal, w: Decimal)
    requires InEnvelope(v) && InEnvelope(w) && Units(v) == Units(w) != 0
    ensures CanonicalText(v) == CanonicalText(w)
  {
    hide CanonicalText, Lowered, PlainPieces, Join;
    var (c, k) := Lowered(v);
    var (d, j) := Lowered(w);
    PrintedIsPlain(v);
    PrintedIsPlain(w);
    assert k <= MAX_SCALE && Abs(Units(v)) == c * Pow(10, MAX_SCALE - k) by { LoweredUnits(v); }
    assert j <= MAX_SCALE && Abs(Units(w)) == d * Pow(10, MAX_SCALE - j) by { LoweredUnits(w); }
    LowestUnique(c, k, d, j, MAX_SCALE);
  }

  /** Every accepted wire text is reproduced by parsing and printing, and parsing it never trips
      the envelope re-check. */
  lemma WireTextRoundTrip(s: string)
    requires IsValidDecimalScalar(s)
    ensures var v := ParseCanonicalDecimalText(s).value;
            InEnvelope(v) && CanonicalText(v) == s
  {
    WireGeometry(s);
    if s == "0" {
      ZeroText();
    } else {
      JoinCut(s);
      PatternPrintsBack(Cut(s));
    }
  }

  lemma PatternPrintsBack(p: Pieces)
    requires NonzeroPattern(p)
    ensures CanonicalText(DecimalOf(p)) == Join(p)
  {
    var v, k := DecimalOf(p), |p.fraction|;
    PatternIsPlain(p);
    PrintedIsPlain(v);
    if k == 0 {
      assert Pow(10, 0) == 1;
    }
    assert Lowered(v) == (v.coefficient, k);
  }
}
