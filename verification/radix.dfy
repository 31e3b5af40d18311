/**
 Non-negative integers as digit strings: `Long.toString(n, radix)` (and
 `Integer.toString`), which writes the shortest digit string using
 `0`-`9` then lower-case `a`-`z`, and the left zero padding used by the
 record tag (`while (s.length < 5) s = "0$s"`) and by `%010d`.
 */
module Radix {

  /** `Character.forDigit(d, 36)` */
  function Digit(d: nat): (c: char)
    requires d < 36
  {
    if d < 10 then (48 + d) as char else (97 + d - 10) as char
  }

  /** `Character.digit(c, 36)`, with 36 for a character that is no digit. */
  function DigitValue(c: char): nat
  {
    if '0' <= c <= '9' then c as int - 48
    else if 'a' <= c <= 'z' then c as int - 97 + 10
    else 36
  }

  predicate IsDigit(c: char, base: nat)
  {
    DigitValue(c) < base
  }

  lemma DigitRoundTrip(d: nat)
    requires d < 36
    ensures DigitValue(Digit(d)) == d
  {
  }

  lemma DigitValueRoundTrip(c: char)
    requires DigitValue(c) < 36
    ensures Digit(DigitValue(c)) == c
  {
  }

  /** A string `Long.toString` can produce: digits of the base, no leading zero unless it is "0". */
  predicate Canonical(s: string, base: nat)
  {
    && |s| > 0
    && (forall i :: 0 <= i < |s| ==> IsDigit(s[i], base))
    && (s[0] == '0' ==> |s| == 1)
  }

  /** Euclidean division facts the digit lemmas lean on. */
  lemma DivMod(n: nat, base: nat)
    requires 2 <= base
    ensures n == (n / base) * base + n % base && 0 <= n % base < base
    ensures n >= base ==> 1 <= n / base < n
    ensures n < base ==> n / base == 0 && n % base == n
  {
  }

  /** `n.toString(base)` for `n >= 0`. */
  function ToRadix(n: nat, base: nat): (r: string)
    requires 2 <= base <= 36
    ensures Canonical(r, base)
    ensures r[0] == '0' <==> n == 0
    decreases n
  {
    DivMod(n, base);
    DigitRoundTrip(n % base);
    if n < base then [Digit(n)]
    else
      var p := ToRadix(n / base, base);
      var r := p + [Digit(n % base)];
      assert r[0] == p[0];
      r
  }

  /** The value a digit string denotes, most significant digit first. */
  function FromRadix(s: string, base: nat): nat
  {
    if |s| == 0 then 0 else FromRadix(s[..|s| - 1], base) * base + DigitValue(s[|s| - 1])
  }

  /** Reading back the digits `ToRadix` writes gives the number. */
  lemma {:induction false} FromToRadix(n: nat, base: nat)
    requires 2 <= base <= 36
    ensures FromRadix(ToRadix(n, base), base) == n
    decreases n
  {
    DivMod(n, base);
    DigitRoundTrip(n % base);
    if n >= base {
      var p := ToRadix(n / base, base);
      FromToRadix(n / base, base);
      assert (p + [Digit(n % base)])[..|p|] == p;
    }
  }

  /** A digit string whose first digit is not zero denotes a positive number. */
  lemma {:induction false} LeadingDigitPositive(s: string, base: nat)
    requires 2 <= base && |s| > 0 && 0 < DigitValue(s[0])
    ensures FromRadix(s, base) > 0
    decreases |s|
  {
    if |s| > 1 {
      LeadingDigitPositive(s[..|s| - 1], base);
    }
  }

  lemma MulAtLeast(a: int, b: nat)
    requires a >= 1
    ensures a * b >= b
  {
  }

  lemma MulDiff(a: int, b: int, c: int)
    ensures a * c - b * c == (a - b) * c
  {
  }

  lemma QuotientOf(q: nat, d: nat, base: nat)
    requires 2 <= base && d < base
    ensures (q * base + d) / base == q && (q * base + d) % base == d
    ensures q >= 1 ==> q * base + d >= base
  {
    var n := q * base + d;
    DivMod(n, base);
    var q', d' := n / base, n % base;
    assert q' * base + d' == q * base + d;
    MulDiff(q', q, base);
    if q' > q {
      MulAtLeast(q' - q, base);
      assert false;
    } else if q' < q {
      MulAtLeast(q - q', base);
      MulDiff(q, q', base);
      assert false;
    }
    if q >= 1 {
      MulAtLeast(q, base);
    }
  }

  /** Every canonical digit string is what `ToRadix` writes for its value. */
  lemma {:induction false} ToFromRadix(s: string, base: nat)
    requires 2 <= base <= 36 && Canonical(s, base)
    ensures ToRadix(FromRadix(s, base), base) == s
    decreases |s|
  {
    var c := s[|s| - 1];
    DigitValueRoundTrip(c);
    if |s| > 1 {
      var p := s[..|s| - 1];
      assert Canonical(p, base);
      LeadingDigitPositive(p, base);
      ToFromRadix(p, base);
      var n := FromRadix(s, base);
      QuotientOf(FromRadix(p, base), DigitValue(c), base);
      DivMod(n, base);
      assert s == p + [c];
    }
  }

  /** The number is recovered from its canonical digits: `ToRadix` is injective. */
  lemma ToRadixInjective(m: nat, n: nat, base: nat)
    requires 2 <= base <= 36 && ToRadix(m, base) == ToRadix(n, base)
    ensures m == n
  {
    FromToRadix(m, base);
    FromToRadix(n, base);
  }

  function Zeros(k: nat): (r: string)
    ensures |r| == k && forall i :: 0 <= i < k ==> r[i] == '0'
  {
    if k == 0 then [] else ['0'] + Zeros(k - 1)
  }

  /** `while (s.length < width) s = "0$s"` */
  function PadLeft(s: string, width: nat): (r: string)
    ensures |r| == if |s| < width then width else |s|
    decreases width - |s|
  {
    if |s| < width then PadLeft(['0'] + s, width) else s
  }

  /** Padding puts zeros, and only zeros, in front of the text. */
  lemma {:induction false} PadLeftZeros(s: string, width: nat)
    ensures PadLeft(s, width) == Zeros(|PadLeft(s, width)| - |s|) + s
    decreases width - |s|
  {
    if |s| < width {
      var r := PadLeft(['0'] + s, width);
      PadLeftZeros(['0'] + s, width);
      assert Zeros(|r| - |s|) == Zeros(|r| - |s| - 1) + ['0'];
    }
  }

  lemma {:induction false} ZerosAppend(k: nat)
    ensures Zeros(k + 1) == Zeros(k) + ['0']
  {
    if k > 0 {
      ZerosAppend(k - 1);
    }
  }

  lemma {:induction false} ZerosValue(k: nat, base: nat)
    ensures FromRadix(Zeros(k), base) == 0
  {
    if k > 0 {
      ZerosAppend(k - 1);
      assert Zeros(k)[..k - 1] == Zeros(k - 1);
      ZerosValue(k - 1, base);
    }
  }

  /** Leading zeros do not change the value. */
  lemma {:induction false} LeadingZeros(k: nat, s: string, base: nat)
    ensures FromRadix(Zeros(k) + s, base) == FromRadix(s, base)
    decreases |s|, k
  {
    if |s| == 0 {
      assert Zeros(k) + s == Zeros(k);
      ZerosValue(k, base);
    } else {
      var p := s[..|s| - 1];
      assert (Zeros(k) + s)[..|Zeros(k) + s| - 1] == Zeros(k) + p;
      LeadingZeros(k, p, base);
    }
  }
}
