/** Canonical base-10 text of a natural number: what `toString()` gives for the
    non-negative token ids that the contract emits and returns. */
module Decimal {

  predicate IsDigit(c: char) {
    '0' <= c <= '9'
  }

  function DigitChar(d: nat): (c: char)
    requires d < 10
    ensures IsDigit(c) && DigitValue(c) == d
  {
    ('0' as int + d) as char
  }

  function DigitValue(c: char): nat
    requires IsDigit(c)
  {
    c as int - '0' as int
  }

  /** A non-empty string of digits. */
  predicate IsDecimal(s: string) {
    |s| > 0 && forall i :: 0 <= i < |s| ==> IsDigit(s[i])
  }

  /** A decimal string without a redundant leading zero, as `toString()` prints it. */
  predicate IsCanonical(s: string) {
    IsDecimal(s) && (s[0] == '0' ==> s == "0")
  }

  /** The decimal text of `n`, most significant digit first. */
  function FromNat(n: nat): (s: string)
    ensures IsCanonical(s)
    ensures n < 10 <==> |s| == 1
  {
    if n < 10 then [DigitChar(n)]
    else
      var prefix := FromNat(n / 10);
      prefix + [DigitChar(n % 10)]
  }

  /** The value a decimal string denotes (the partner of FromNat). */
  function ToNat(s: string): nat
    requires forall i :: 0 <= i < |s| ==> IsDigit(s[i])
  {
    if s == [] then 0 else ToNat(s[..|s| - 1]) * 10 + DigitValue(s[|s| - 1])
  }

  /** Reading back the text of `n` gives `n`. */
  lemma {:induction false} ToNatFromNat(n: nat)
    ensures ToNat(FromNat(n)) == n
  {
    var s := FromNat(n);
    if n >= 10 {
      ToNatFromNat(n / 10);
      assert s[..|s| - 1] == FromNat(n / 10);
    }
  }

  /** Two numbers with the same text are the same number. */
  lemma FromNatInjective(m: nat, n: nat)
    requires FromNat(m) == FromNat(n)
    ensures m == n
  {
    ToNatFromNat(m);
    ToNatFromNat(n);
  }

  /** A canonical string other than "0" denotes a positive number. */
  lemma {:induction false} ToNatPositive(s: string)
    requires IsCanonical(s) && s != "0"
    ensures ToNat(s) > 0
  {
    if |s| > 1 {
      var prefix := s[..|s| - 1];
      assert prefix[0] == s[0];
      ToNatPositive(prefix);
    }
  }

  /** Every canonical decimal string is the text of the number it denotes. */
  lemma {:induction false} FromNatToNat(s: string)
    requires IsCanonical(s)
    ensures FromNat(ToNat(s)) == s
  {
    if |s| > 1 {
      var prefix := s[..|s| - 1];
      assert prefix[0] == s[0];
      ToNatPositive(prefix);
      FromNatToNat(prefix);
      var n := ToNat(s);
      assert n / 10 == ToNat(prefix) && n % 10 == DigitValue(s[|s| - 1]);
      assert s == prefix + [s[|s| - 1]];
    }
  }

  /** The canonical text of `n` is the only canonical string denoting `n`. */
  lemma CanonicalIsTextOf(s: string, n: nat)
    requires IsCanonical(s) && ToNat(s) == n
    ensures s == FromNat(n)
  {
    FromNatToNat(s);
  }
}
