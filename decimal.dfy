/**
 * Decimal text of natural numbers: strconv.Itoa and fmt's "%d" (Itoa), fmt's "%06d"
 * (ZeroPad6, used by GenerateOTP) and strconv.ParseUint(s, 10, 32) (ParseUint32).
 */
module Decimal {
  import opened Wrappers
  import Ascii

  const MaxUint32: nat := 0xFFFF_FFFF

  function DigitChar(d: nat): (c: char)
    requires d < 10
    ensures Ascii.IsDigit(c)
  {
    ('0' as int + d) as char
  }

  function DigitValue(c: char): (d: nat)
    requires Ascii.IsDigit(c)
    ensures d < 10 && DigitChar(d) == c
  {
    c as int - '0' as int
  }

  predicate AllDigits(s: string) {
    forall i :: 0 <= i < |s| ==> Ascii.IsDigit(s[i])
  }

  /** The number a string of decimal digits denotes, most significant digit first. */
  function Value(s: string): nat
    requires AllDigits(s)
  {
    if s == [] then 0 else Value(s[..|s| - 1]) * 10 + DigitValue(s[|s| - 1])
  }

  /** strconv.Itoa for a non-negative number: shortest decimal text, no sign, no leading zero. */
  function Itoa(n: nat): (s: string)
    ensures s != [] && AllDigits(s)
    ensures |s| > 1 ==> s[0] != '0'
  {
    if n < 10 then [DigitChar(n)] else Itoa(n / 10) + [DigitChar(n % 10)]
  }

  lemma {:induction false} ValueOfItoa(n: nat)
    ensures Value(Itoa(n)) == n
  {
    if n >= 10 {
      var s := Itoa(n);
      assert s[..|s| - 1] == Itoa(n / 10);
      ValueOfItoa(n / 10);
    }
  }

  /** Itoa of a number below 10^k (k at least 1) has at most k digits. */
  lemma {:induction false} ItoaLength(n: nat, k: nat, bound: nat)
    requires k >= 1 && bound == Pow10(k) && n < bound
    ensures |Itoa(n)| <= k
  {
    if n >= 10 {
      assert k > 1;
      assert bound == 10 * Pow10(k - 1);
      ItoaLength(n / 10, k - 1, Pow10(k - 1));
    }
  }

  function Pow10(k: nat): (p: nat)
    ensures p >= 1
  {
    if k == 0 then 1 else 10 * Pow10(k - 1)
  }

  function Zeros(k: nat): (s: string)
    ensures |s| == k && AllDigits(s)
    ensures forall i :: 0 <= i < k ==> s[i] == '0'
  {
    if k == 0 then [] else Zeros(k - 1) + ['0']
  }

  /** Leading zeros do not change the value of a digit string. */
  lemma {:induction false} ValueLeadingZeros(k: nat, s: string)
    requires AllDigits(s)
    ensures AllDigits(Zeros(k) + s) && Value(Zeros(k) + s) == Value(s)
  {
    if s == [] {
      assert Zeros(k) + s == Zeros(k);
      ValueOfZeros(k);
    } else {
      var t := Zeros(k) + s;
      assert t[..|t| - 1] == Zeros(k) + s[..|s| - 1];
      ValueLeadingZeros(k, s[..|s| - 1]);
    }
  }

  lemma {:induction false} ValueOfZeros(k: nat)
    ensures Value(Zeros(k)) == 0
  {
    if k > 0 {
      assert Zeros(k)[..k - 1] == Zeros(k - 1);
      ValueOfZeros(k - 1);
    }
  }

  /** fmt.Sprintf("%06d", n) for 0 <= n < 1000000 (the range rand.Intn(1000000) draws from). */
  function ZeroPad6(n: nat): (s: string)
    requires n < 1000000
    ensures |s| == 6 && AllDigits(s) && Value(s) == n
  {
    ItoaLength(n, 6, 1000000);
    ValueOfItoa(n);
    ValueLeadingZeros(6 - |Itoa(n)|, Itoa(n));
    Zeros(6 - |Itoa(n)|) + Itoa(n)
  }

  /** Why strconv.ParseUint rejects its input. */
  datatype ParseError = ErrSyntax | ErrRange

  /** The length of the longest prefix of s made of decimal digits. */
  function LeadingDigits(s: string): (k: nat)
    ensures k <= |s|
    ensures forall i :: 0 <= i < k ==> Ascii.IsDigit(s[i])
    ensures k < |s| ==> !Ascii.IsDigit(s[k])
  {
    if s == [] || !Ascii.IsDigit(s[0]) then 0
    else
      var k := LeadingDigits(s[1..]);
      assert forall i :: 1 <= i < k + 1 ==> s[i] == s[1..][i - 1];
      k + 1
  }

  /**
   * The digit loop of strconv.ParseUint(s, 10, 32) from position i, with n the
   * value read so far: a non-digit is a syntax error, and a value above
   * 2^32 - 1 is a range error as soon as the digit that makes it is read.
   */
  function Scan(s: string, i: nat, n: nat): Result<nat, ParseError>
    requires i <= |s|
    decreases |s| - i
  {
    if i == |s| then Success(n)
    else if !Ascii.IsDigit(s[i]) then Failure(ErrSyntax)
    else
      var n1 := n * 10 + DigitValue(s[i]);
      if n1 > MaxUint32 then Failure(ErrRange) else Scan(s, i + 1, n1)
  }

  /**
   * strconv.ParseUint(s, 10, 32): one or more decimal digits (no sign) whose
   * value fits 32 bits. A range error is reported when the leading digits
   * already exceed 2^32 - 1, whatever follows them; anything else that is
   * not a number is a syntax error.
   */
  function ParseUint32(s: string): (r: Result<nat, ParseError>)
    ensures r.Success? <==> s != [] && AllDigits(s) && Value(s) <= MaxUint32
    ensures r.Success? ==> r.value == Value(s) && r.value <= MaxUint32
    ensures r == Failure(ErrRange) <==> AllDigits(s[..LeadingDigits(s)]) && Value(s[..LeadingDigits(s)]) > MaxUint32
  {
    assert s[..0] == [];
    ScanOutcome(s, 0, 0);
    if s == [] then Failure(ErrSyntax) else Scan(s, 0, 0)
  }

  lemma {:induction false} ScanOutcome(s: string, i: nat, n: nat)
    requires i <= LeadingDigits(s) && AllDigits(s[..i]) && n == Value(s[..i]) && n <= MaxUint32
    ensures AllDigits(s[..LeadingDigits(s)])
    ensures Scan(s, i, n).Success? <==> AllDigits(s) && Value(s) <= MaxUint32
    ensures Scan(s, i, n).Success? ==> Scan(s, i, n).value == Value(s)
    ensures Scan(s, i, n) == Failure(ErrRange) <==> Value(s[..LeadingDigits(s)]) > MaxUint32
    decreases |s| - i
  {
    var k := LeadingDigits(s);
    assert AllDigits(s[..k]);
    assert AllDigits(s) ==> k == |s|;
    assert s[..|s|] == s;
    if i == |s| {
    } else if !Ascii.IsDigit(s[i]) {
      assert !AllDigits(s) by {
        assert !Ascii.IsDigit(s[i]);
      }
    } else {
      ValueSnoc(s, i);
      var n1 := n * 10 + DigitValue(s[i]);
      ValueMono(s, i + 1, k);
      if n1 <= MaxUint32 {
        ScanOutcome(s, i + 1, n1);
      }
    }
  }

  /** One more digit: the value of the longer prefix. */
  lemma ValueSnoc(s: string, i: nat)
    requires i < |s| && AllDigits(s[..i]) && Ascii.IsDigit(s[i])
    ensures AllDigits(s[..i + 1]) && Value(s[..i + 1]) == Value(s[..i]) * 10 + DigitValue(s[i])
  {
    assert s[..i + 1][..i] == s[..i];
  }

  /** A longer digit prefix is worth at least as much. */
  lemma {:induction false} ValueMono(s: string, j: nat, k: nat)
    requires j <= k <= |s| && AllDigits(s[..k])
    ensures AllDigits(s[..j]) && Value(s[..j]) <= Value(s[..k])
    decreases k - j
  {
    if j < k {
      assert s[..k][..k - 1] == s[..k - 1];
      ValueMono(s, j, k - 1);
    }
  }

  /** Go reports a range error for overflowing leading digits even when a non-digit follows them. */
  lemma OverflowBeforeJunk(digits: string, rest: string)
    requires digits != [] && AllDigits(digits) && Value(digits) > MaxUint32
    ensures ParseUint32(digits + rest) == Failure(ErrRange)
  {
    var s := digits + rest;
    assert s[..|digits|] == digits;
    ValueMono(s, |digits|, LeadingDigits(s));
  }

  /** Formatting a 32-bit number with Itoa and parsing it back gives the number. */
  lemma ParseItoa(n: nat)
    requires n <= MaxUint32
    ensures ParseUint32(Itoa(n)) == Success(n)
  {
    ValueOfItoa(n);
  }
}
