/** Decimal digit strings: reading, writing, padding and stripping. */
module DigitText {
  import opened Arithmetic

  predicate IsDigit(c: char) {
    '0' <= c <= '9'
  }

  predicate AllDigits(s: string) {
    forall i :: 0 <= i < |s| ==> IsDigit(s[i])
  }

  function DigitValue(c: char): (d: nat)
    requires IsDigit(c)
    ensures d < 10
  {
    c as int - '0' as int
  }

  function DigitChar(d: nat): (c: char)
    requires d < 10
    ensures IsDigit(c) && DigitValue(c) == d
  {
    (d + '0' as int) as char
  }

  /** The number a digit string denotes; leading zeros do not matter. */
  function NatOf(s: string): (n: nat)
    requires AllDigits(s)
  {
    if s == "" then 0 else NatOf(s[..|s| - 1]) * 10 + DigitValue(s[|s| - 1])
  }

  /** The shortest digit string of a number. */
  function Text(n: nat): (s: string)
    ensures AllDigits(s) && |s| == DigitCount(n)
  {
    if n < 10 then [DigitChar(n)] else Text(n / 10) + [DigitChar(n % 10)]
  }

  lemma {:induction false} NatOfText(n: nat)
    ensures NatOf(Text(n)) == n
    ensures n > 0 ==> Text(n)[0] != '0'
  {
    if n < 10 {
      assert Text(n)[..0] == "";
    } else {
      NatOfText(n / 10);
      assert Text(n)[..|Text(n)| - 1] == Text(n / 10);
    }
  }

  lemma {:induction false} TextNatOf(s: string)
    requires AllDigits(s) && s != "" && s[0] != '0'
    ensures NatOf(s) > 0 && Text(NatOf(s)) == s
  {
    var n := |s| - 1;
    if n == 0 {
      assert s[..0] == "";
    } else {
      TextNatOf(s[..n]);
      var v := DigitValue(s[n]);
      assert s == s[..n] + [s[n]];
      assert NatOf(s) / 10 == NatOf(s[..n]) && NatOf(s) % 10 == v;
    }
  }

  /** Digits are ordered like the characters: of two equally long digit strings, the one with the
      smaller character at the first difference denotes the smaller number. */
  lemma {:induction false} SmallerDigits(s: string, t: string, k: nat)
    requires AllDigits(s) && AllDigits(t) && |s| == |t| && k < |s|
    requires s[..k] == t[..k] && s[k] < t[k]
    ensures NatOf(s) < NatOf(t)
    decreases |s|
  {
    var n := |s| - 1;
    if k < n {
      assert s[..n][..k] == s[..k] && t[..n][..k] == t[..k];
      SmallerDigits(s[..n], t[..n], k);
    }
  }

  lemma {:induction false} NatOfConcat(s: string, t: string)
    requires AllDigits(s) && AllDigits(t)
    ensures AllDigits(s + t) && NatOf(s + t) == NatOf(s) * Pow(10, |t|) + NatOf(t)
    decreases |t|
  {
    if t == "" {
      assert s + t == s;
    } else {
      var m := |t| - 1;
      NatOfConcat(s, t[..m]);
      assert (s + t)[..|s + t| - 1] == s + t[..m];
      assert Pow(10, |t|) == 10 * Pow(10, m);
      ShiftDigit(NatOf(s), Pow(10, m), NatOf(t[..m]), DigitValue(t[m]));
    }
  }

  lemma ShiftDigit(a: int, p: int, b: int, d: int)
    ensures (a * p + b) * 10 + d == a * (10 * p) + (b * 10 + d)
  {
    assert a * (10 * p) == (a * p) * 10 by { MulAssoc(a, p, 10); }
  }

  function Zeros(k: nat): (s: string)
    ensures |s| == k && AllDigits(s) && forall i :: 0 <= i < |s| ==> s[i] == '0'
  {
    if k == 0 then "" else Zeros(k - 1) + "0"
  }

  lemma {:induction false} NatOfZeros(k: nat)
    ensures NatOf(Zeros(k)) == 0
  {
    if k > 0 {
      NatOfZeros(k - 1);
      assert Zeros(k)[..k - 1] == Zeros(k - 1);
    }
  }

  lemma ZerosAreZeros(s: string)
    requires forall i :: 0 <= i < |s| ==> s[i] == '0'
    ensures s == Zeros(|s|)
  {
  }

  lemma NatOfLeadingZeros(k: nat, s: string)
    requires AllDigits(s)
    ensures AllDigits(Zeros(k) + s) && NatOf(Zeros(k) + s) == NatOf(s)
  {
    NatOfConcat(Zeros(k), s);
    NatOfZeros(k);
  }

  lemma NatOfTrailingZeros(s: string, k: nat)
    requires AllDigits(s)
    ensures AllDigits(s + Zeros(k)) && NatOf(s + Zeros(k)) == NatOf(s) * Pow(10, k)
  {
    NatOfConcat(s, Zeros(k));
    NatOfZeros(k);
  }

  function LeadingZeros(s: string): (k: nat)
    ensures k <= |s| && (k < |s| ==> s[k] != '0')
    ensures forall i :: 0 <= i < k ==> s[i] == '0'
  {
    if s != "" && s[0] == '0' then 1 + LeadingZeros(s[1..]) else 0
  }

  /** Python's `lstrip("0")`. */
  function LStripZeros(s: string): (r: string)
    ensures |r| <= |s| && (r == "" || r[0] != '0')
  {
    s[LeadingZeros(s)..]
  }

  lemma ZerosThenRest(s: string, k: nat)
    requires k <= |s| && forall i :: 0 <= i < k ==> s[i] == '0'
    ensures s == Zeros(k) + s[k..]
  {
    hide Zeros;
    ZerosAreZeros(s[..k]);
    assert s == s[..k] + s[k..];
  }

  /** What is left after stripping leading zeros has exactly the significant digits. */
  lemma StrippedLength(s: string)
    requires AllDigits(s)
    ensures LStripZeros(s) == "" <==> NatOf(s) == 0
    ensures NatOf(s) > 0 ==> LStripZeros(s) == Text(NatOf(s)) && |LStripZeros(s)| == DigitCount(NatOf(s))
  {
    var k := LeadingZeros(s);
    var r := s[k..];
    assert AllDigits(r) && NatOf("") == 0;
    ZerosThenRest(s, k);
    hide LeadingZeros, Zeros, Text, NatOf, AllDigits;
    NatOfLeadingZeros(k, r);
    if r != "" {
      TextNatOf(r);
    }
  }

  /** Left padding with zeros to a minimum width. */
  function PadLeft(s: string, width: nat): (r: string)
    ensures |r| == Max(|s|, width)
  {
    if |s| >= width then s else Zeros(width - |s|) + s
  }

  lemma PadText(s: string)
    requires AllDigits(s) && s != ""
    ensures PadLeft(Text(NatOf(s)), |s|) == s
  {
    var k := LeadingZeros(s);
    StrippedLength(s);
    if k == |s| {
      PadZero(s);
    } else {
      hide NatOf, LeadingZeros, Text, Zeros;
      ZerosThenRest(s, k);
    }
  }

  lemma PadZero(s: string)
    requires s != "" && forall i :: 0 <= i < |s| ==> s[i] == '0'
    ensures PadLeft(Text(0), |s|) == s
  {
    ZerosAreZeros(s);
    assert Text(0) == "0";
  }

  /** The index of the first occurrence, or -1: Python's `find`. */
  function Find(s: string, c: char): (i: int)
    ensures -1 <= i < |s|
    ensures i >= 0 ==> s[i] == c && c !in s[..i]
    ensures i < 0 ==> c !in s
  {
    if s == "" then -1
    else if s[0] == c then 0
    else var i := Find(s[1..], c); if i < 0 then -1 else i + 1
  }

  lemma FindAfter(p: string, c: char, t: string)
    requires c !in p
    ensures Find(p + [c] + t, c) == |p|
  {
    var s := p + [c] + t;
    assert s[|p|] == c;
    assert s[..|p|] == p;
  }
}
