/**
 The record's two separators (`Str.tab` and `Str.ctrlA`) and Kotlin's
 `CharSequence.split(delimiter)`, which keeps empty pieces, so that
 `line.split(Str.tab).last()` is exactly the text after the last TAB.
 */
module Fields {

  const Tab: char := 9 as char
  const CtrlA: char := 1 as char

  /** `pieces.joinToString(c)` */
  function Join(pieces: seq<string>, c: char): string
    requires |pieces| > 0
  {
    if |pieces| == 1 then pieces[0] else pieces[0] + [c] + Join(pieces[1..], c)
  }

  /** `s.split(c)`: the maximal `c`-free pieces between the occurrences of `c`. */
  function Split(s: string, c: char): (r: seq<string>)
    ensures |r| > 0
    ensures forall i :: 0 <= i < |r| ==> c !in r[i]
    ensures Join(r, c) == s
  {
    if |s| == 0 then [""]
    else
      var t := Split(s[1..], c);
      if s[0] == c then
        assert Join([""] + t, c) == [c] + Join(t, c);
        [""] + t
      else
        var r := [[s[0]] + t[0]] + t[1..];
        assert Join(r, c) == [s[0]] + Join(t, c) by {
          if |t| > 1 {
            assert r[1..] == t[1..];
          }
        }
        r
  }

  /** Splitting undoes joining whenever no piece holds the separator. */
  lemma {:induction false} SplitJoin(pieces: seq<string>, c: char)
    requires |pieces| > 0 && forall i :: 0 <= i < |pieces| ==> c !in pieces[i]
    ensures Split(Join(pieces, c), c) == pieces
  {
    if |pieces| == 1 {
      NoSeparator(pieces[0], c);
    } else {
      SplitJoin(pieces[1..], c);
      SplitAround(pieces[0], c, Join(pieces[1..], c));
      NoSeparator(pieces[0], c);
      assert pieces == [pieces[0]] + pieces[1..];
    }
  }

  lemma {:induction false} NoSeparator(s: string, c: char)
    requires c !in s
    ensures Split(s, c) == [s]
  {
    if |s| > 0 {
      NoSeparator(s[1..], c);
      assert s == [s[0]] + s[1..];
    }
  }

  /** An occurrence of the separator cuts the pieces in two. */
  lemma {:induction false} SplitAround(a: string, c: char, b: string)
    ensures Split(a + [c] + b, c) == Split(a, c) + Split(b, c)
  {
    var s := a + [c] + b;
    if |a| == 0 {
      assert s == [c] + b;
      assert s[1..] == b;
    } else {
      assert s[0] == a[0] && s[1..] == a[1..] + [c] + b;
      SplitAround(a[1..], c, b);
      if a[0] != c {
        ExtendFirst(a[0], Split(a[1..], c), Split(b, c));
      }
    }
  }

  /** Prefixing a character to the first piece commutes with appending more pieces. */
  lemma ExtendFirst(x: char, t: seq<string>, u: seq<string>)
    requires |t| > 0
    ensures [[x] + (t + u)[0]] + (t + u)[1..] == ([[x] + t[0]] + t[1..]) + u
  {
    assert (t + u)[0] == t[0] && (t + u)[1..] == t[1..] + u;
  }

  /** `line.split(Str.tab).last()`: the merge key of a record line. */
  function MergeKey(line: string): (r: string)
    ensures Tab !in r
    ensures |r| <= |line| && r == line[|line| - |r|..]
    ensures r == line || line[|line| - |r| - 1] == Tab
  {
    var pieces := Split(line, Tab);
    JoinEndsWithLast(pieces, Tab);
    pieces[|pieces| - 1]
  }

  lemma {:induction false} JoinEndsWithLast(pieces: seq<string>, c: char)
    requires |pieces| > 0
    ensures var j := Join(pieces, c); var l := pieces[|pieces| - 1];
      && |l| <= |j| && j[|j| - |l|..] == l
      && (|pieces| > 1 ==> |l| < |j| && j[|j| - |l| - 1] == c)
  {
    if |pieces| > 1 {
      JoinEndsWithLast(pieces[1..], c);
      var j := Join(pieces[1..], c);
      var l := pieces[|pieces| - 1];
      var whole := pieces[0] + [c] + j;
      assert whole[|whole| - |j|..] == j;
      if |pieces| > 2 {
        assert whole[|whole| - |l| - 1] == j[|j| - |l| - 1];
      }
    }
  }

  /** The merge key is whatever follows a TAB when that text has no TAB of its own. */
  lemma MergeKeyAfterTab(a: string, b: string)
    requires Tab !in b
    ensures MergeKey(a + [Tab] + b) == b
  {
    var line := a + [Tab] + b;
    var r := MergeKey(line);
    assert forall k :: 0 <= k < |b| ==> line[|line| - |b| + k] == b[k];
    assert line[|line| - |b| - 1] == Tab;
    assert |r| == |b|;
    assert line[|line| - |b|..] == b;
  }
}
