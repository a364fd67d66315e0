/** A view of C strings and of the ctype/atoi helpers the C solvers use.  A
    C string is modelled by its characters without the terminating NUL; the
    terminator sits at index `|s|`, and anything beyond it is outside the
    buffer. */
module CText {

  /** The character at `i`, reading the terminator at `|s|`. */
  function At(s: string, i: nat): char
    requires i <= |s|
  {
    if i < |s| then s[i] else '\0'
  }

  predicate IsDigit(c: char)
  {
    '0' <= c <= '9'
  }

  predicate IsLower(c: char)
  {
    'a' <= c <= 'z'
  }

  function DigitValue(c: char): nat
    requires IsDigit(c)
  {
    (c - '0') as nat
  }

  predicate AllDigits(d: string)
  {
    forall k :: 0 <= k < |d| ==> IsDigit(d[k])
  }

  /** The number a string of decimal digits spells. */
  function DigitsValue(d: string): nat
    requires AllDigits(d)
  {
    if |d| == 0 then 0 else 10 * DigitsValue(d[..|d| - 1]) + DigitValue(d[|d| - 1])
  }

  /** The end of the run of digits starting at `i`. */
  function DigitRunEnd(s: string, i: nat): (r: nat)
    requires i <= |s|
    ensures i <= r <= |s|
    ensures forall k :: i <= k < r ==> IsDigit(s[k])
    ensures r == |s| || !IsDigit(s[r])
    decreases |s| - i
  {
    if i < |s| && IsDigit(s[i]) then DigitRunEnd(s, i + 1) else i
  }

  /** What `atoi` reads at `i`: the value of the digit run starting there, 0
      when there is none. */
  function Atoi(s: string, i: nat): nat
    requires i <= |s|
  {
    DigitsValue(s[i..DigitRunEnd(s, i)])
  }

  /** Decimal notation of a natural number, without leading zeros. */
  function FormatNat(n: nat): (r: string)
    ensures |r| > 0 && AllDigits(r)
    ensures |r| > 1 ==> r[0] != '0'
  {
    if n < 10 then ['0' + n as char]
    else FormatNat(n / 10) + ['0' + (n % 10) as char]
  }

  /** Reading back a formatted number gives the number. */
  lemma {:induction false} FormatNatValue(n: nat)
    ensures DigitsValue(FormatNat(n)) == n
  {
    if n >= 10 {
      FormatNatValue(n / 10);
      var d := FormatNat(n);
      assert d[..|d| - 1] == FormatNat(n / 10);
    }
  }

  lemma DigitRunOf(pre: string, d: string, post: string)
    requires AllDigits(d)
    requires |post| == 0 || !IsDigit(post[0])
    ensures DigitRunEnd(pre + d + post, |pre|) == |pre| + |d|
  {
    var s := pre + d + post;
    var k := |pre| + |d|;
    DigitRunFrom(s, |pre|, k);
  }

  lemma {:induction false} DigitRunFrom(s: string, i: nat, k: nat)
    requires i <= k <= |s|
    requires forall j :: i <= j < k ==> IsDigit(s[j])
    requires k == |s| || !IsDigit(s[k])
    ensures DigitRunEnd(s, i) == k
    decreases k - i
  {
    if i < k {
      DigitRunFrom(s, i + 1, k);
    }
  }

  /** `atoi` applied to a formatted number followed by a non-digit reads the
      number back. */
  lemma AtoiFormat(pre: string, n: nat, post: string)
    requires |post| == 0 || !IsDigit(post[0])
    ensures |pre| + |FormatNat(n)| <= |pre + FormatNat(n) + post|
    ensures DigitRunEnd(pre + FormatNat(n) + post, |pre|) == |pre| + |FormatNat(n)|
    ensures Atoi(pre + FormatNat(n) + post, |pre|) == n
  {
    var d := FormatNat(n);
    var s := pre + d + post;
    DigitRunOf(pre, d, post);
    assert s[|pre|..|pre| + |d|] == d;
    FormatNatValue(n);
  }
}
