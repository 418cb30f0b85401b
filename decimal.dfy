/**
 * The decimal codec of the engine: `std::to_string` on the non-negative integers
 * it stores (file count, content address, content size) and `std::stoi` reading
 * them back.
 */
module Decimal {
  import opened Wrappers
  import opened ByteStrings

  /** Largest value of a C++ `int`; `std::stoi` throws `std::out_of_range` above it. */
  const INT_MAX: nat := 0x7fff_ffff

  /** The two exceptions `std::stoi` can throw. */
  datatype StoiError = InvalidArgument | OutOfRange

  /** ASCII '0' .. '9'. */
  predicate IsDigit(b: byte) {
    48 <= b <= 57
  }

  predicate AllDigits(s: Bytes) {
    forall i :: 0 <= i < |s| ==> IsDigit(s[i])
  }

  /** A byte that is not a digit does not occur in a numeral. */
  lemma NonDigitNotInNumeral(s: Bytes, b: byte)
    requires AllDigits(s) && !IsDigit(b)
    ensures b !in s
  {
  }

  function DigitOf(d: nat): (b: byte)
    requires d < 10
    ensures IsDigit(b) && b as int - 48 == d
  {
    (48 + d) as byte
  }

  function Pow10(k: nat): nat {
    if k == 0 then 1 else 10 * Pow10(k - 1)
  }

  /** `std::to_string(n)` for `n >= 0`: the shortest decimal numeral of `n`. */
  function Dec(n: nat): (s: Bytes)
    ensures 1 <= |s| && AllDigits(s)
    ensures |s| > 1 ==> s[0] != 48
  {
    if n < 10 then [DigitOf(n)] else Dec(n / 10) + [DigitOf(n % 10)]
  }

  /** The number an all-digit numeral denotes. */
  function Value(s: Bytes): nat
    requires AllDigits(s)
  {
    if s == [] then 0 else 10 * Value(s[..|s| - 1]) + (s[|s| - 1] as int - 48)
  }

  /** The length of the longest prefix of `s` made of digits. */
  function LeadingDigits(s: Bytes): (k: nat)
    ensures k <= |s| && AllDigits(s[..k])
    ensures k < |s| ==> !IsDigit(s[k])
  {
    if s == [] || !IsDigit(s[0]) then 0
    else
      var k := 1 + LeadingDigits(s[1..]);
      assert s[..k] == [s[0]] + s[1..][..k - 1];
      k
  }

  /**
   * `std::stoi(s)` on a numeral without sign or leading blanks: the value of the
   * leading digits; `InvalidArgument` when there are none, `OutOfRange` when the
   * value does not fit an `int`.
   */
  function Stoi(s: Bytes): (r: Result<nat, StoiError>)
    ensures r == Err(InvalidArgument) <==> s == [] || !IsDigit(s[0])
    ensures r.Ok? ==> r.value <= INT_MAX
  {
    var k := LeadingDigits(s);
    if k == 0 then Err(InvalidArgument)
    else if Value(s[..k]) > INT_MAX then Err(OutOfRange)
    else Ok(Value(s[..k]))
  }

  /** The numeral `to_string` produces denotes the number it was made from. */
  lemma {:induction false} ValueOfDec(n: nat)
    ensures Value(Dec(n)) == n
  {
    if n >= 10 {
      var s := Dec(n);
      assert s[..|s| - 1] == Dec(n / 10);
      ValueOfDec(n / 10);
    }
  }

  /** Round trip of the decimal codec: `stoi(to_string(n)) == n` for every `int` value. */
  lemma StoiOfDec(n: nat)
    requires n <= INT_MAX
    ensures Stoi(Dec(n)) == Ok(n)
  {
    var s := Dec(n);
    assert s[..|s|] == s;
    ValueOfDec(n);
  }

  /** `to_string` is injective on the naturals. */
  lemma DecInjective(m: nat, n: nat)
    requires Dec(m) == Dec(n)
    ensures m == n
  {
    ValueOfDec(m);
    ValueOfDec(n);
  }

  /** A number below 10^k has at most k decimal digits. */
  lemma {:induction false} DecLength(n: nat, k: nat)
    requires 1 <= k && n < Pow10(k)
    ensures |Dec(n)| <= k
  {
    if n >= 10 {
      assert Pow10(k) == 10 * Pow10(k - 1);
      assert n / 10 < Pow10(k - 1);
      DecLength(n / 10, k - 1);
    }
  }

  /** A larger number never has a shorter numeral. */
  lemma {:induction false} DecLengthMonotone(m: nat, n: nat)
    requires m <= n
    ensures |Dec(m)| <= |Dec(n)|
  {
    if m >= 10 {
      DecLengthMonotone(m / 10, n / 10);
    }
  }
}
