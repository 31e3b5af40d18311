/**
 The record tag counter (`object RecordNumber`): every record written gets
 the current count in base 36, left padded with `0` to at least five
 characters, and the count then goes up by one. The process-wide singleton
 becomes a `Counter` value threaded through the recorder.
 */
module RecordNumber {
  import opened Radix

  const TagWidth: nat := 5

  /** `count` and the last tag handed out, `base36Tag`. */
  datatype Counter = Counter(count: nat, base36Tag: string)

  function Initial(): Counter
  {
    Counter(0, "00000")
  }

  /** The tag for count `n`. */
  function Tag(n: nat): string
  {
    PadLeft(ToRadix(n, 36), TagWidth)
  }

  /**
   A tag is the base-36 digits of its count, left padded with `0` to at
   least five characters and never truncated, and it reads back as the count.
   */
  lemma TagDecodes(n: nat)
    ensures var t := Tag(n);
      && |t| >= TagWidth && |t| >= |ToRadix(n, 36)|
      && (forall i :: 0 <= i < |t| ==> IsDigit(t[i], 36))
      && t == Zeros(|t| - |ToRadix(n, 36)|) + ToRadix(n, 36)
      && FromRadix(t, 36) == n
  {
    var digits := ToRadix(n, 36);
    var t := PadLeft(digits, TagWidth);
    PadLeftZeros(digits, TagWidth);
    FromToRadix(n, 36);
    LeadingZeros(|t| - |digits|, digits, 36);
  }

  /** `RecordNumber.update`: the tag of the current count, then count + 1. */
  function Update(c: Counter): (r: (string, Counter))
    ensures FromRadix(r.0, 36) == c.count && |r.0| >= TagWidth
    ensures Tally(r.1) == Tally(c) + 1
    ensures Request(r.1) == r.0
  {
    var tag := Tag(c.count);
    TagDecodes(c.count);
    (tag, Counter(c.count + 1, tag))
  }

  /** `RecordNumber.request`: the last tag issued. */
  function Request(c: Counter): string
  {
    c.base36Tag
  }

  /** `RecordNumber.tally`: the number of tags issued. */
  function Tally(c: Counter): nat
  {
    c.count
  }

  /** Distinct counts never share a tag. */
  lemma TagInjective(m: nat, n: nat)
    requires Tag(m) == Tag(n)
    ensures m == n
  {
    TagDecodes(m);
    TagDecodes(n);
  }

  function Pow(b: nat, k: nat): nat
  {
    if k == 0 then 1 else b * Pow(b, k - 1)
  }

  /** Fewer than `base^k` needs at most `k` digits. */
  lemma {:induction false} RadixLength(n: nat, base: nat, k: nat)
    requires 2 <= base <= 36 && 1 <= k && n < Pow(base, k)
    ensures |ToRadix(n, base)| <= k
    decreases k
  {
    DivMod(n, base);
    if n >= base {
      assert k > 1 by {
        assert Pow(base, 1) == base;
      }
      assert n / base < Pow(base, k - 1) by {
        if n / base >= Pow(base, k - 1) {
          MulMonotone(Pow(base, k - 1), n / base, base);
        }
      }
      RadixLength(n / base, base, k - 1);
    }
  }

  lemma MulMonotone(a: nat, b: nat, c: nat)
    requires a <= b
    ensures a * c <= b * c
  {
  }

  /** The first 36^5 tags are exactly five characters wide. */
  lemma TagFixedWidth(n: nat)
    requires n < Pow(36, TagWidth)
    ensures |Tag(n)| == TagWidth
  {
    RadixLength(n, 36, TagWidth);
    TagDecodes(n);
  }
}
