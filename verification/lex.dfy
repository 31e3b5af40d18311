/**
 The ordering of `String.compareTo`. A JVM string is a sequence of UTF-16
 code units, and `compareTo` compares those units one by one, a proper prefix
 coming before every extension of it. A Dafny `string` is a sequence of
 Unicode scalar values, so the order is stated on the UTF-16 encoding of the
 string: a character above U+FFFF counts as its surrogate pair, whose first
 unit (0xD800-0xDBFF) sorts below every character in U+E000-U+FFFF. Both the
 carton (a `TreeMap<String, String>`) and the merge shelf (a
 `TreeMap<String, BoxTop>`) order their keys this way.
 */
module Lex {

  /** The UTF-16 code units of one character. */
  function Units(c: char): (u: seq<int>)
    ensures |u| == 1 <==> c as int < 0x1_0000
    ensures |u| == 1 || |u| == 2
    ensures |u| == 1 ==> u[0] == c as int
    ensures |u| == 1 ==> !(0xD800 <= u[0] < 0xE000)
    ensures |u| == 2 ==> 0xD800 <= u[0] < 0xDC00 && 0xDC00 <= u[1] < 0xE000
    ensures |u| == 2 ==> c as int == 0x1_0000 + (u[0] - 0xD800) * 0x400 + (u[1] - 0xDC00)
  {
    if c as int < 0x1_0000 then [c as int]
    else
      var v := c as int - 0x1_0000;
      [0xD800 + v / 0x400, 0xDC00 + v % 0x400]
  }

  /** The UTF-16 code units of a string, as the JVM stores it. */
  function Utf16(s: string): (u: seq<int>)
    ensures |u| >= |s|
  {
    if |s| == 0 then [] else Units(s[0]) + Utf16(s[1..])
  }

  /** Lexicographic order of code-unit sequences. */
  predicate UnitsLessEq(a: seq<int>, b: seq<int>)
  {
    |a| == 0 || (|b| > 0 && (a[0] < b[0] || (a[0] == b[0] && UnitsLessEq(a[1..], b[1..]))))
  }

  /** `a.compareTo(b) <= 0` */
  predicate LessEq(a: string, b: string)
  {
    UnitsLessEq(Utf16(a), Utf16(b))
  }

  /** `a.compareTo(b) < 0` */
  predicate Less(a: string, b: string)
  {
    LessEq(a, b) && a != b
  }

  // ---------------------------------------------------------------------
  // The encoding.
  // ---------------------------------------------------------------------

  lemma {:induction false} Utf16Append(a: string, b: string)
    ensures Utf16(a + b) == Utf16(a) + Utf16(b)
  {
    if |a| > 0 {
      assert (a + b)[0] == a[0];
      assert (a + b)[1..] == a[1..] + b;
      Utf16Append(a[1..], b);
    } else {
      assert a + b == b;
    }
  }

  /** A character's units determine the character. */
  lemma UnitsInjective(c: char, d: char)
    requires Units(c) == Units(d)
    ensures c == d
  {
  }

  /** The encoding loses nothing: distinct strings have distinct units. */
  lemma {:induction false} Utf16Injective(a: string, b: string)
    requires Utf16(a) == Utf16(b)
    ensures a == b
  {
    if |a| > 0 && |b| > 0 {
      var ua, ub := Units(a[0]), Units(b[0]);
      assert Utf16(a)[0] == ua[0] && Utf16(b)[0] == ub[0];
      assert |ua| == |ub|;
      assert ua == Utf16(a)[..|ua|] && ub == Utf16(b)[..|ub|];
      UnitsInjective(a[0], b[0]);
      assert Utf16(a[1..]) == Utf16(a)[|ua|..] && Utf16(b[1..]) == Utf16(b)[|ub|..];
      Utf16Injective(a[1..], b[1..]);
      assert a == [a[0]] + a[1..] && b == [b[0]] + b[1..];
    }
  }

  // ---------------------------------------------------------------------
  // Code-unit order is a total order.
  // ---------------------------------------------------------------------

  lemma {:induction false} UnitsReflexive(a: seq<int>)
    ensures UnitsLessEq(a, a)
  {
    if |a| > 0 {
      UnitsReflexive(a[1..]);
    }
  }

  lemma {:induction false} UnitsTotal(a: seq<int>, b: seq<int>)
    ensures UnitsLessEq(a, b) || UnitsLessEq(b, a)
  {
    if |a| > 0 && |b| > 0 && a[0] == b[0] {
      UnitsTotal(a[1..], b[1..]);
    }
  }

  lemma {:induction false} UnitsAntisymmetric(a: seq<int>, b: seq<int>)
    requires UnitsLessEq(a, b) && UnitsLessEq(b, a)
    ensures a == b
  {
    if |a| > 0 && |b| > 0 {
      UnitsAntisymmetric(a[1..], b[1..]);
      assert a == [a[0]] + a[1..] && b == [b[0]] + b[1..];
    }
  }

  lemma {:induction false} UnitsTransitive(a: seq<int>, b: seq<int>, c: seq<int>)
    requires UnitsLessEq(a, b) && UnitsLessEq(b, c)
    ensures UnitsLessEq(a, c)
  {
    if |a| > 0 && |b| > 0 && |c| > 0 && a[0] == b[0] == c[0] {
      UnitsTransitive(a[1..], b[1..], c[1..]);
    }
  }

  lemma {:induction false} UnitsPrefixFirst(a: seq<int>, b: seq<int>)
    ensures UnitsLessEq(a, a + b)
  {
    if |a| > 0 {
      assert (a + b)[1..] == a[1..] + b;
      UnitsPrefixFirst(a[1..], b);
    }
  }

  lemma {:induction false} UnitsFirstDifference(p: seq<int>, x: int, a: seq<int>, y: int, b: seq<int>)
    requires x < y
    ensures UnitsLessEq(p + [x] + a, p + [y] + b)
    ensures !UnitsLessEq(p + [y] + b, p + [x] + a)
  {
    if |p| > 0 {
      assert (p + [x] + a)[1..] == p[1..] + [x] + a;
      assert (p + [y] + b)[1..] == p[1..] + [y] + b;
      UnitsFirstDifference(p[1..], x, a, y, b);
    } else {
      assert (p + [x] + a)[0] == x;
      assert (p + [y] + b)[0] == y;
    }
  }

  // ---------------------------------------------------------------------
  // So `compareTo` is a total order on strings.
  // ---------------------------------------------------------------------

  lemma Reflexive(a: string)
    ensures LessEq(a, a)
  {
    UnitsReflexive(Utf16(a));
  }

  lemma Total(a: string, b: string)
    ensures LessEq(a, b) || LessEq(b, a)
  {
    UnitsTotal(Utf16(a), Utf16(b));
  }

  lemma Antisymmetric(a: string, b: string)
    requires LessEq(a, b) && LessEq(b, a)
    ensures a == b
  {
    UnitsAntisymmetric(Utf16(a), Utf16(b));
    Utf16Injective(a, b);
  }

  lemma Transitive(a: string, b: string, c: string)
    requires LessEq(a, b) && LessEq(b, c)
    ensures LessEq(a, c)
  {
    UnitsTransitive(Utf16(a), Utf16(b), Utf16(c));
  }

  lemma LessTransitive(a: string, b: string, c: string)
    requires Less(a, b) && LessEq(b, c)
    ensures Less(a, c)
  {
    Transitive(a, b, c);
    if a == c {
      Antisymmetric(a, b);
    }
  }

  /** Exactly one of `a < b`, `a == b`, `b < a` holds. */
  lemma Trichotomy(a: string, b: string)
    ensures Less(a, b) || a == b || Less(b, a)
    ensures !(Less(a, b) && Less(b, a))
  {
    Total(a, b);
    if LessEq(a, b) && LessEq(b, a) {
      Antisymmetric(a, b);
    }
  }

  /** A string sorts no later than every extension of it. */
  lemma PrefixFirst(a: string, b: string)
    ensures LessEq(a, a + b)
  {
    Utf16Append(a, b);
    UnitsPrefixFirst(Utf16(a), Utf16(b));
  }

  /**
   The first difference decides: `p + [x] + a` sorts before `p + [y] + b`
   when `x < y` and both lie below U+10000, where one character is one unit.
   */
  lemma FirstDifference(p: string, x: char, a: string, y: char, b: string)
    requires x < y && y as int < 0x1_0000
    ensures Less(p + [x] + a, p + [y] + b)
  {
    Utf16Append(p + [x], a);
    Utf16Append(p, [x]);
    Utf16Append(p + [y], b);
    Utf16Append(p, [y]);
    assert Utf16([x]) == [x as int] && Utf16([y]) == [y as int];
    assert Utf16(p + [x] + a) == Utf16(p) + [x as int] + Utf16(a);
    assert Utf16(p + [y] + b) == Utf16(p) + [y as int] + Utf16(b);
    UnitsFirstDifference(Utf16(p), x as int, Utf16(a), y as int, Utf16(b));
  }

  /**
   Where code-unit order parts from code-point order: U+1F600 is the larger
   code point, yet its surrogate pair sorts it before U+FF01.
   */
  lemma SurrogatesFirst()
    ensures '\U{FF01}' < '\U{1F600}'
    ensures Less("\U{1F600}", "\U{FF01}")
  {
    assert Units('\U{1F600}') == [0xD83D, 0xDE00];
    assert Utf16("\U{1F600}") == [0xD83D, 0xDE00];
    assert Utf16("\U{FF01}") == [0xFF01];
  }
}
