/**
  Positional rendering of natural numbers, as Rust's `format!` does it for `{}` (decimal),
  `{:X}` (upper-case hexadecimal) and `{:x}` (lower-case hexadecimal): most significant digit
  first, no padding, no sign, and a single `0` for zero. `Value` reads such a digit string back.
 */
module Radix {

  const DecimalDigits: string := "0123456789"
  const UpperHexDigits: string := "0123456789ABCDEF"
  const LowerHexDigits: string := "0123456789abcdef"

  /** An alphabet of at least two pairwise different digits; the digit of value `k` is `alphabet[k]`. */
  predicate IsAlphabet(alphabet: string) {
    |alphabet| >= 2 &&
    forall i, j :: 0 <= i < j < |alphabet| ==> alphabet[i] != alphabet[j]
  }

  lemma AlphabetsAreAlphabets()
    ensures IsAlphabet(DecimalDigits) && |DecimalDigits| == 10
    ensures IsAlphabet(UpperHexDigits) && |UpperHexDigits| == 16
    ensures IsAlphabet(LowerHexDigits) && |LowerHexDigits| == 16
  {
  }

  /** The upper-case hexadecimal digits are `0`-`9` and `A`-`F`. */
  lemma UpperHexDigitRange(d: char)
    requires d in UpperHexDigits
    ensures '0' <= d <= '9' || 'A' <= d <= 'F'
  {
  }

  /** Every character of `s` is a digit of `alphabet`. */
  predicate AllDigits(s: string, alphabet: string) {
    forall i :: 0 <= i < |s| ==> s[i] in alphabet
  }

  /** A canonical numeral: non-empty, only digits, and no leading zero digit unless it is the numeral of zero. */
  predicate IsCanonical(s: string, alphabet: string)
    requires |alphabet| >= 2
  {
    |s| >= 1 && AllDigits(s, alphabet) && (|s| > 1 ==> s[0] != alphabet[0])
  }

  /** The value of digit `d`: its position in the alphabet. */
  function DigitValue(d: char, alphabet: string): (k: nat)
    requires d in alphabet
    ensures k < |alphabet| && alphabet[k] == d
  {
    if alphabet[0] == d then 0 else 1 + DigitValue(d, alphabet[1..])
  }

  lemma DigitValueOfDigit(alphabet: string, k: nat)
    requires IsAlphabet(alphabet) && k < |alphabet|
    ensures DigitValue(alphabet[k], alphabet) == k
  {
  }

  /** The numeral of `n` in base `|alphabet|`, most significant digit first. */
  function Format(n: nat, alphabet: string): (r: string)
    requires IsAlphabet(alphabet)
    ensures IsCanonical(r, alphabet)
    ensures n < |alphabet| <==> |r| == 1
    decreases n
  {
    var b := |alphabet|;
    if n < b then [alphabet[n]]
    else
      var q := n / b;
      assert 1 <= q < n by { DivBounds(n, b); }
      Format(q, alphabet) + [alphabet[n % b]]
  }

  lemma DivBounds(n: nat, b: nat)
    requires b >= 2 && n >= b
    ensures 1 <= n / b < n
  {
  }

  /** The number denoted by a digit string: the inverse of `Format` on canonical numerals. */
  function Value(s: string, alphabet: string): nat
    requires AllDigits(s, alphabet)
    decreases |s|
  {
    if s == [] then 0
    else
      assert AllDigits(s[..|s| - 1], alphabet);
      Value(s[..|s| - 1], alphabet) * |alphabet| + DigitValue(s[|s| - 1], alphabet)
  }

  /** Reading a rendered numeral gives back the number. */
  lemma {:induction false} ValueOfFormat(n: nat, alphabet: string)
    requires IsAlphabet(alphabet)
    ensures Value(Format(n, alphabet), alphabet) == n
    decreases n
  {
    var b := |alphabet|;
    var r := Format(n, alphabet);
    if n < b {
      assert r[..0] == [];
      DigitValueOfDigit(alphabet, n);
    } else {
      var q := Format(n / b, alphabet);
      var d := alphabet[n % b];
      assert r == q + [d];
      var hi, lo := Value(q, alphabet), DigitValue(d, alphabet);
      ValueSnoc(q, d, alphabet);
      DivBounds(n, b);
      ValueOfFormat(n / b, alphabet);
      DigitValueOfDigit(alphabet, n % b);
      QuotientRemainder(n, b, hi, lo);
    }
  }

  /** A numeral whose leading digit is not the zero digit denotes a positive number. */
  lemma {:induction false} LeadingDigitPositive(s: string, alphabet: string)
    requires IsAlphabet(alphabet) && |s| >= 1 && AllDigits(s, alphabet) && s[0] != alphabet[0]
    ensures Value(s, alphabet) >= 1
    decreases |s|
  {
    var p := s[..|s| - 1];
    if |s| > 1 {
      assert p[0] == s[0];
      LeadingDigitPositive(p, alphabet);
    }
  }

  /** Two canonical numerals of the same value are the same numeral. */
  lemma {:induction false} CanonicalInjective(s: string, t: string, alphabet: string)
    requires IsAlphabet(alphabet) && IsCanonical(s, alphabet) && IsCanonical(t, alphabet)
    requires Value(s, alphabet) == Value(t, alphabet)
    ensures s == t
    decreases |s|
  {
    var p, q := s[..|s| - 1], t[..|t| - 1];
    assert AllDigits(p, alphabet) && AllDigits(q, alphabet);
    MulCancel(Value(p, alphabet), Value(q, alphabet), |alphabet|,
      DigitValue(s[|s| - 1], alphabet), DigitValue(t[|t| - 1], alphabet));
    if |s| > 1 {
      assert p[0] == s[0];
      LeadingDigitPositive(p, alphabet);
    } else {
      assert p == [];
    }
    if |t| > 1 {
      assert q[0] == t[0];
      LeadingDigitPositive(q, alphabet);
    } else {
      assert q == [];
    }
    if |s| > 1 {
      CanonicalInjective(p, q, alphabet);
    }
    assert s == p + [s[|s| - 1]] && t == q + [t[|t| - 1]];
  }

  /** Rendering the value of a canonical numeral gives the numeral back: it is the only canonical spelling of its number. */
  lemma FormatOfValue(s: string, alphabet: string)
    requires IsAlphabet(alphabet) && IsCanonical(s, alphabet)
    ensures Format(Value(s, alphabet), alphabet) == s
  {
    ValueOfFormat(Value(s, alphabet), alphabet);
    CanonicalInjective(Format(Value(s, alphabet), alphabet), s, alphabet);
  }

  /** Base-`b` digits are unique: equal sums `x * b + k` with digits below `b` have equal parts. */
  lemma {:induction false} MulCancel(x: nat, y: nat, b: nat, k: nat, j: nat)
    requires k < b && j < b && x * b + k == y * b + j
    ensures x == y && k == j
    decreases x
  {
    MulAtLeast(x, b);
    MulAtLeast(y, b);
    if x > 0 && y > 0 {
      MulCancel(x - 1, y - 1, b, k, j);
    }
  }

  lemma MulAtLeast(x: nat, b: nat)
    ensures x >= 1 ==> x * b >= b
  {
    if x >= 1 {
      assert x * b == (x - 1) * b + b;
    }
  }

  lemma ValueSnoc(q: string, d: char, alphabet: string)
    requires AllDigits(q, alphabet) && d in alphabet
    ensures AllDigits(q + [d], alphabet)
    ensures Value(q + [d], alphabet) == Value(q, alphabet) * |alphabet| + DigitValue(d, alphabet)
  {
    var r := q + [d];
    assert r[..|r| - 1] == q;
  }

  lemma QuotientRemainder(n: nat, b: nat, hi: nat, lo: nat)
    requires b >= 2 && hi == n / b && lo == n % b
    ensures hi * b + lo == n
  {
  }

  lemma DivBelowSquare(n: nat, b: nat)
    requires b >= 2 && n < b * b
    ensures n / b < b
  {
  }

  /** Numbers below `b * b` need one digit when below `b` and two digits otherwise. */
  lemma FormatBelowSquare(n: nat, alphabet: string)
    requires IsAlphabet(alphabet) && n < |alphabet| * |alphabet|
    ensures |Format(n, alphabet)| == if n < |alphabet| then 1 else 2
  {
    var b := |alphabet|;
    if n >= b {
      assert n / b < b by { DivBelowSquare(n, b); }
    }
  }
}
