/**
 Positional numerals in bases 2 to 16: the digits Python's `hex()` and
 `'{:d}'.format` write, and the digits `int(s, base)` reads.
 */
module Numerals {

  import opened Py

  ghost predicate ValidBase(base: nat) {
    2 <= base <= 16
  }

  /** The lower-case character Python writes for digit `d`. */
  function DigitChar(d: nat): (c: char)
    requires d < 16
    ensures '0' <= c <= '9' || 'a' <= c <= 'f'
  {
    if d < 10 then ('0' as int + d) as char else ('a' as int + d - 10) as char
  }

  /** The value of a digit character; both letter cases are read, as `int()` does. */
  function DigitValue(c: char): (r: Option<nat>)
    ensures r.Some? <==> '0' <= c <= '9' || 'a' <= c <= 'f' || 'A' <= c <= 'F'
    ensures r.Some? ==> r.value < 16
  {
    if '0' <= c <= '9' then Some(c as int - '0' as int)
    else if 'a' <= c <= 'f' then Some(c as int - 'a' as int + 10)
    else if 'A' <= c <= 'F' then Some(c as int - 'A' as int + 10)
    else None
  }

  lemma DigitValueOfDigitChar(d: nat)
    requires d < 16
    ensures DigitValue(DigitChar(d)) == Some(d)
  {
  }

  predicate IsDigit(c: char, base: nat) {
    DigitValue(c).Some? && DigitValue(c).value < base
  }

  predicate AllDigits(s: string, base: nat) {
    forall i :: 0 <= i < |s| ==> IsDigit(s[i], base)
  }

  /** The value of a digit string, most significant digit first. */
  function ValueOf(s: string, base: nat): nat
    requires AllDigits(s, base)
  {
    if |s| == 0 then 0
    else ValueOf(s[..|s| - 1], base) * base + DigitValue(s[|s| - 1]).value
  }

  /** The shortest digit string of `n`, most significant digit first. */
  function ToDigits(n: nat, base: nat): (s: string)
    requires ValidBase(base)
    ensures |s| >= 1
    ensures AllDigits(s, base)
    ensures n < base <==> |s| == 1
    decreases n
  {
    if n < base then
      DigitValueOfDigitChar(n);
      [DigitChar(n)]
    else
      DivLess(n, base);
      var prefix := ToDigits(n / base, base);
      DigitValueOfDigitChar(n % base);
      AllDigitsSnoc(prefix, DigitChar(n % base), base);
      prefix + [DigitChar(n % base)]
  }

  lemma AllDigitsSnoc(prefix: string, c: char, base: nat)
    requires AllDigits(prefix, base) && IsDigit(c, base)
    ensures AllDigits(prefix + [c], base)
  {
    assert forall i :: 0 <= i < |prefix| ==> (prefix + [c])[i] == prefix[i];
  }

  /** `int(s, base)` on a bare digit string: fails on the empty string and on any non-digit. */
  function ParseDigits(s: string, base: nat): (r: Result<nat>)
    ensures r.Ok? <==> |s| > 0 && AllDigits(s, base)
  {
    if |s| > 0 && AllDigits(s, base) then Ok(ValueOf(s, base)) else Raise(ValueError)
  }

  lemma {:induction false} ValueOfToDigits(n: nat, base: nat)
    requires ValidBase(base)
    ensures ValueOf(ToDigits(n, base), base) == n
    decreases n
  {
    if n >= base {
      var q, r := n / base, n % base;
      DigitValueOfDigitChar(r);
      var prefix := ToDigits(q, base);
      DivLess(n, base);
      assert ToDigits(n, base) == prefix + [DigitChar(r)];
      ValueOfToDigits(q, base);
      ValueOfSnoc(prefix, DigitChar(r), base);
      assert ValueOf(ToDigits(n, base), base) == q * base + r;
      DivMod(n, base);
    } else {
      DigitValueOfDigitChar(n);
      assert ToDigits(n, base) == [DigitChar(n)];
      assert ValueOf([DigitChar(n)], base) == ValueOf([], base) * base + n;
    }
  }

  lemma ValueOfSnoc(prefix: string, c: char, base: nat)
    requires AllDigits(prefix, base) && IsDigit(c, base)
    ensures AllDigits(prefix + [c], base)
    ensures ValueOf(prefix + [c], base) == ValueOf(prefix, base) * base + DigitValue(c).value
  {
    var s := prefix + [c];
    assert s[..|s| - 1] == prefix;
  }

  /** Reading back what `ToDigits` wrote gives the number again. */
  lemma ParseToDigits(n: nat, base: nat)
    requires ValidBase(base)
    ensures ParseDigits(ToDigits(n, base), base) == Ok(n)
  {
    ValueOfToDigits(n, base);
  }

  lemma DivLess(n: nat, base: nat)
    requires 2 <= base <= n
    ensures 1 <= n / base < n
  {
  }

  lemma DivBound(n: nat, base: nat, p: nat)
    requires base > 0 && n < base * p
    ensures n / base < p
  {
  }

  lemma DivMod(n: nat, base: nat)
    requires base > 0
    ensures (n / base) * base + n % base == n
  {
  }

  function Zeros(k: nat): (s: string)
    ensures |s| == k
    ensures forall i :: 0 <= i < k ==> s[i] == '0'
  {
    seq(k, i => '0')
  }

  /** Leading zeros do not change the value of a numeral. */
  lemma {:induction false} ValueOfLeadingZeros(k: nat, s: string, base: nat)
    requires ValidBase(base) && AllDigits(s, base)
    ensures AllDigits(Zeros(k) + s, base)
    ensures ValueOf(Zeros(k) + s, base) == ValueOf(s, base)
    decreases |s|
  {
    var t := Zeros(k) + s;
    assert IsDigit('0', base);
    assert AllDigits(t, base);
    if |s| == 0 {
      ValueOfZeros(k, base);
      assert t == Zeros(k);
    } else {
      var s' := s[..|s| - 1];
      assert t[..|t| - 1] == Zeros(k) + s';
      ValueOfLeadingZeros(k, s', base);
    }
  }

  lemma {:induction false} ValueOfZeros(k: nat, base: nat)
    requires ValidBase(base)
    ensures AllDigits(Zeros(k), base)
    ensures ValueOf(Zeros(k), base) == 0
  {
    assert IsDigit('0', base);
    if k > 0 {
      assert Zeros(k)[..k - 1] == Zeros(k - 1);
      ValueOfZeros(k - 1, base);
    }
  }

  /** `s` left-padded with '0' to at least `width` characters. */
  function PadZeros(s: string, width: nat): (r: string)
    ensures |r| == if |s| < width then width else |s|
    ensures r[|r| - |s|..] == s
    ensures forall i :: 0 <= i < |r| - |s| ==> r[i] == '0'
  {
    if |s| < width then Zeros(width - |s|) + s else s
  }

  /** Python's `'{:0Nd}'.format(n)` for `N == width`: the sign comes first and the
      zeros go between the sign and the digits, so that the whole field is `width` wide. */
  function FormatDecimal(n: int, width: nat): (r: string)
  {
    if n >= 0 then PadZeros(ToDigits(n, 10), width)
    else "-" + PadZeros(ToDigits(-n, 10), if width > 0 then width - 1 else 0)
  }

  /** A non-negative number formatted with zero padding reads back as itself,
      and the field is exactly `width` wide when the number has at most `width` digits. */
  lemma FormatDecimalReadsBack(n: nat, width: nat)
    ensures ParseDigits(FormatDecimal(n, width), 10) == Ok(n)
    ensures |FormatDecimal(n, width)| >= width
    ensures |ToDigits(n, 10)| <= width ==> |FormatDecimal(n, width)| == width
  {
    var digits := ToDigits(n, 10);
    ValueOfToDigits(n, 10);
    if |digits| < width {
      ValueOfLeadingZeros(width - |digits|, digits, 10);
    }
  }

  /** A negative number is formatted as a minus sign followed by its zero-padded magnitude. */
  lemma FormatDecimalNegative(n: int, width: nat)
    requires n < 0 && width > 0
    ensures FormatDecimal(n, width)[0] == '-'
    ensures |FormatDecimal(n, width)| >= width
    ensures ParseDigits(FormatDecimal(n, width)[1..], 10) == Ok(-n)
  {
    var m: nat := -n;
    var tail := PadZeros(ToDigits(m, 10), width - 1);
    assert FormatDecimal(n, width) == "-" + tail;
    assert FormatDecimal(n, width)[1..] == tail;
    FormatDecimalReadsBack(m, width - 1);
  }

  /** Numbers below `base^k` have at most `k` digits. */
  lemma {:induction false} ToDigitsLength(n: nat, base: nat, k: nat)
    requires ValidBase(base) && k >= 1 && n < Pow(base, k)
    ensures |ToDigits(n, base)| <= k
    decreases k
  {
    if n >= base {
      assert Pow(base, 1) == base;
      assert k != 1;
      DivBound(n, base, Pow(base, k - 1));
      ToDigitsLength(n / base, base, k - 1);
    }
  }

  function Pow(base: nat, k: nat): (r: nat)
    ensures base >= 1 ==> r >= 1
  {
    if k == 0 then 1 else base * Pow(base, k - 1)
  }
}
