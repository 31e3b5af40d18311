/**
 The tag that names the output files after the scanned directory
 (`transformTopNodeString` and its six `fix*` rewrites), and the trimming of
 a trailing separator from the command-line directory arguments.

 Every rewrite uses the character class `[${Str.bkSlash}/]`. Java reads the
 resulting `[\/]` as an escaped slash, so the class matches `/` alone
 (`Separators.SlashOnly`). Read as it is spelled, the class would also match
 the backslash (`Separators.SlashAndBackslash`). That second reading is an
 interpretation: on POSIX a backslash is an ordinary file-name character.
 Each function takes the reading as a parameter.
 */
module TopNodeTag {

  datatype Separators =
    | SlashOnly          // `[\/]` as the regex engine reads it
    | SlashAndBackslash  // `/` and `\`, as the class is spelled

  predicate IsSep(c: char, seps: Separators)
  {
    c == '/' || (seps == SlashAndBackslash && c == '\\')
  }

  predicate NoSeps(s: string, seps: Separators)
  {
    forall i :: 0 <= i < |s| ==> !IsSep(s[i], seps)
  }

  predicate AllSeps(s: string, seps: Separators)
  {
    forall i :: 0 <= i < |s| ==> IsSep(s[i], seps)
  }

  /** No two neighbouring characters are both `.`. */
  predicate NoDoubleDot(s: string)
  {
    forall i :: 0 <= i < |s| - 1 ==> !(s[i] == '.' && s[i + 1] == '.')
  }

  /** The string with every separator deleted: what the separator rewrites must keep. */
  function Strip(s: string, seps: Separators): string
  {
    if |s| == 0 then ""
    else if IsSep(s[0], seps) then Strip(s[1..], seps)
    else [s[0]] + Strip(s[1..], seps)
  }

  /** The string with every `.` deleted. */
  function Undot(s: string): string
  {
    if |s| == 0 then ""
    else if s[0] == '.' then Undot(s[1..])
    else [s[0]] + Undot(s[1..])
  }

  // ---------------------------------------------------------------------
  // The six rewrites, in the order `transformTopNodeString` applies them.
  // ---------------------------------------------------------------------

  /** `fixConsecutiveSlashes`: `[seps]+` becomes `/`. */
  function CollapseSeps(s: string, seps: Separators): (r: string)
    ensures |r| == 0 <==> |s| == 0
    ensures |s| > 0 && IsSep(s[0], seps) ==> r[0] == '/'
    ensures |s| > 0 && !IsSep(s[0], seps) ==> r[0] == s[0]
  {
    if |s| == 0 then ""
    else if IsSep(s[0], seps) then
      if |s| > 1 && IsSep(s[1], seps) then CollapseSeps(s[1..], seps)
      else "/" + CollapseSeps(s[1..], seps)
    else [s[0]] + CollapseSeps(s[1..], seps)
  }

  /** Every separator is a `/` and no two are neighbours. */
  predicate SingleSlashes(r: string, seps: Separators)
  {
    && (forall i :: 0 <= i < |r| && IsSep(r[i], seps) ==> r[i] == '/')
    && (forall i :: 0 <= i < |r| - 1 ==> !(IsSep(r[i], seps) && IsSep(r[i + 1], seps)))
  }

  /** Collapsing leaves single slashes only. */
  lemma {:induction false} CollapseSepsShape(s: string, seps: Separators)
    ensures SingleSlashes(CollapseSeps(s, seps), seps)
  {
    if |s| > 0 {
      CollapseSepsShape(s[1..], seps);
      var t := CollapseSeps(s[1..], seps);
      if IsSep(s[0], seps) && |s| > 1 && IsSep(s[1], seps) {
        assert CollapseSeps(s, seps) == t;
      } else {
        var c := if IsSep(s[0], seps) then '/' else s[0];
        var r := [c] + t;
        assert CollapseSeps(s, seps) == r;
        forall i | 0 <= i < |r| && IsSep(r[i], seps) ensures r[i] == '/' {
          if i > 0 {
            assert r[i] == t[i - 1];
          }
        }
        forall i | 0 <= i < |r| - 1 ensures !(IsSep(r[i], seps) && IsSep(r[i + 1], seps)) {
          if i > 0 {
            assert r[i] == t[i - 1] && r[i + 1] == t[i];
          } else if IsSep(c, seps) {
            assert s[1..][0] == s[1];
          }
        }
      }
    }
  }

  /** `fixTrailingSlashes`: `[seps]$` is deleted. */
  function TrimTrailing(s: string, seps: Separators): (r: string)
    ensures |r| == |s| || |r| == |s| - 1
    ensures r == s[..|r|]
    ensures |r| == |s| - 1 <==> |s| > 0 && IsSep(s[|s| - 1], seps)
  {
    if |s| > 0 && IsSep(s[|s| - 1], seps) then s[..|s| - 1] else s
  }

  /** `fixLeadingPeriod`: `^[.]` becomes `dot.`. */
  function LeadingPeriod(s: string): (r: string)
    ensures |s| > 0 ==> |r| > 0 && r[0] != '.'
    ensures |s| == 0 ==> r == s
  {
    if |s| > 0 && s[0] == '.' then "dot." + s[1..] else s
  }

  /** `fixLeadingSlash`: `^[seps]` becomes `slash.`. */
  function LeadingSlash(s: string, seps: Separators): (r: string)
    ensures |s| > 0 ==> |r| > 0 && !IsSep(r[0], seps)
    ensures |s| > 0 && s[0] != '.' ==> r[0] != '.'
    ensures |s| == 0 ==> r == s
  {
    if |s| > 0 && IsSep(s[0], seps) then "slash." + s[1..] else s
  }

  /** `fixAnySlashes`: every separator becomes `.`. */
  function AnySlashes(s: string, seps: Separators): (r: string)
    ensures |r| == |s| && NoSeps(r, seps)
  {
    if |s| == 0 then ""
    else [if IsSep(s[0], seps) then '.' else s[0]] + AnySlashes(s[1..], seps)
  }

  /** `fixConsecutivePeriods`: `[.]+` becomes `.`. */
  function CollapseDots(s: string): (r: string)
    ensures |s| > 0 ==> |r| > 0 && r[0] == s[0]
    ensures |s| == 0 ==> r == s
    ensures NoDoubleDot(r)
  {
    if |s| == 0 then ""
    else if s[0] == '.' && |s| > 1 && s[1] == '.' then CollapseDots(s[1..])
    else [s[0]] + CollapseDots(s[1..])
  }

  /** Collapsing dot runs brings in no separator. */
  lemma {:induction false} CollapseDotsNoSeps(s: string, seps: Separators)
    requires NoSeps(s, seps)
    ensures NoSeps(CollapseDots(s), seps)
  {
    if |s| > 0 {
      assert NoSeps(s[1..], seps) by {
        forall i | 0 <= i < |s[1..]| ensures !IsSep(s[1..][i], seps) {
          assert s[1..][i] == s[i + 1];
        }
      }
      CollapseDotsNoSeps(s[1..], seps);
    }
  }

  /** `transformTopNodeString` under a reading of the separator class. */
  function Normalize(s: string, seps: Separators): string
  {
    CollapseDots(AnySlashes(LeadingSlash(LeadingPeriod(TrimTrailing(CollapseSeps(s, seps), seps)), seps), seps))
  }

  /** `transformTopNodeString` as the code runs it. */
  function TransformAsWritten(s: string): string
  {
    Normalize(s, SlashOnly)
  }

  /** `transformTopNodeString` under the reading that also matches `\`. */
  function Transform(s: string): string
  {
    Normalize(s, SlashAndBackslash)
  }

  // ---------------------------------------------------------------------
  // What each rewrite keeps.
  // ---------------------------------------------------------------------

  /** Collapsing separator runs keeps every other character, in order. */
  lemma {:induction false} CollapseSepsKeeps(s: string, seps: Separators)
    ensures Strip(CollapseSeps(s, seps), seps) == Strip(s, seps)
  {
    if |s| > 0 {
      CollapseSepsKeeps(s[1..], seps);
      var t := CollapseSeps(s[1..], seps);
      if IsSep(s[0], seps) {
        if !(|s| > 1 && IsSep(s[1], seps)) {
          assert ("/" + t)[1..] == t;
        }
      } else {
        assert ([s[0]] + t)[1..] == t;
      }
    }
  }

  /** Collapsing dot runs keeps every other character, in order. */
  lemma {:induction false} CollapseDotsKeeps(s: string)
    ensures Undot(CollapseDots(s)) == Undot(s)
  {
    if |s| > 0 {
      CollapseDotsKeeps(s[1..]);
      if !(s[0] == '.' && |s| > 1 && s[1] == '.') {
        assert ([s[0]] + CollapseDots(s[1..]))[1..] == CollapseDots(s[1..]);
      }
    }
  }

  /** A string that is not all separators keeps a character after separators are deleted. */
  lemma {:induction false} StripNonEmpty(s: string, seps: Separators)
    ensures |Strip(s, seps)| == 0 <==> AllSeps(s, seps)
  {
    if |s| > 0 {
      StripNonEmpty(s[1..], seps);
      if AllSeps(s[1..], seps) && IsSep(s[0], seps) {
        forall i | 0 <= i < |s| ensures IsSep(s[i], seps) {
          if i > 0 {
            assert s[i] == s[1..][i - 1];
          }
        }
      }
      if AllSeps(s, seps) {
        forall i | 0 <= i < |s[1..]| ensures IsSep(s[1..][i], seps) {
          assert s[1..][i] == s[i + 1];
        }
      }
    }
  }

  /** Deleting separators from a string that has no trailing one. */
  lemma {:induction false} StripSnoc(s: string, c: char, seps: Separators)
    requires IsSep(c, seps)
    ensures Strip(s + [c], seps) == Strip(s, seps)
  {
    if |s| > 0 {
      assert (s + [c])[1..] == s[1..] + [c];
      StripSnoc(s[1..], c, seps);
    } else {
      assert (s + [c])[1..] == [];
    }
  }

  /** Dropping a trailing separator keeps every other character. */
  lemma TrimTrailingKeeps(s: string, seps: Separators)
    ensures Strip(TrimTrailing(s, seps), seps) == Strip(s, seps)
  {
    if |s| > 0 && IsSep(s[|s| - 1], seps) {
      assert s == s[..|s| - 1] + [s[|s| - 1]];
      StripSnoc(s[..|s| - 1], s[|s| - 1], seps);
    }
  }

  // ---------------------------------------------------------------------
  // A reference: what `replace(Regex("[...]+"), x)` does to a string.
  // ---------------------------------------------------------------------

  /** The characters of a repeated class: the separators, or `.`. */
  datatype Class = SepClass(seps: Separators) | DotClass

  predicate InClass(c: char, cls: Class)
  {
    match cls
    case SepClass(seps) => IsSep(c, seps)
    case DotClass => c == '.'
  }

  /** How many leading characters lie inside the class. */
  function Inside(s: string, cls: Class): (n: nat)
    ensures n <= |s|
    ensures n < |s| ==> !InClass(s[n], cls)
    ensures |s| > 0 && InClass(s[0], cls) ==> n > 0
  {
    if |s| == 0 || !InClass(s[0], cls) then 0 else 1 + Inside(s[1..], cls)
  }

  /** Every character before `Inside` lies inside the class. */
  lemma {:induction false} InsideAll(s: string, cls: Class)
    ensures forall i :: 0 <= i < Inside(s, cls) ==> InClass(s[i], cls)
  {
    if |s| > 0 && InClass(s[0], cls) {
      InsideAll(s[1..], cls);
      forall i | 1 <= i < Inside(s, cls) ensures InClass(s[i], cls) {
        assert s[i] == s[1..][i - 1];
      }
    }
  }

  /**
   Regex replacement of the class repeated, scanning left to right: a
   character outside the class is copied, and the longest run of the class
   starting at a character inside it is replaced by `rep`.
   */
  function ReplaceRuns(s: string, cls: Class, rep: char): string
    decreases |s|
  {
    if |s| == 0 then ""
    else if !InClass(s[0], cls) then [s[0]] + ReplaceRuns(s[1..], cls, rep)
    else [rep] + ReplaceRuns(s[Inside(s, cls)..], cls, rep)
  }

  /** The run a replacement starts with, and what follows it. */
  lemma RunPieces(s: string, cls: Class) returns (run: string, t: string)
    requires |s| > 0 && InClass(s[0], cls)
    ensures run == s[..Inside(s, cls)] && t == s[Inside(s, cls)..] && s == run + t
    ensures |run| > 0 && forall i :: 0 <= i < |run| ==> InClass(run[i], cls)
    ensures |t| == 0 || !InClass(t[0], cls)
  {
    var m := Inside(s, cls);
    run, t := s[..m], s[m..];
    assert s == run + t;
    InsideAll(s, cls);
    forall i | 0 <= i < |run| ensures InClass(run[i], cls) {
      assert run[i] == s[i];
    }
    assert |t| > 0 ==> t[0] == s[m];
  }

  /** A run of separators followed by anything else collapses to one `/`. */
  lemma {:induction false} CollapseSepRun(run: string, t: string, seps: Separators)
    requires |run| > 0 && AllSeps(run, seps)
    requires |t| == 0 || !IsSep(t[0], seps)
    ensures CollapseSeps(run + t, seps) == "/" + CollapseSeps(t, seps)
  {
    assert (run + t)[0] == run[0];
    if |run| > 1 {
      assert (run + t)[1] == run[1];
      assert (run + t)[1..] == run[1..] + t;
      assert AllSeps(run[1..], seps) by {
        forall i | 0 <= i < |run[1..]| ensures IsSep(run[1..][i], seps) {
          assert run[1..][i] == run[i + 1];
        }
      }
      CollapseSepRun(run[1..], t, seps);
    } else {
      assert (run + t)[1..] == t;
    }
  }

  /** `fixConsecutiveSlashes` is the regex replacement of each separator run by `/`. */
  lemma {:induction false} CollapseSepsReplace(s: string, seps: Separators)
    ensures CollapseSeps(s, seps) == ReplaceRuns(s, SepClass(seps), '/')
    decreases |s|
  {
    var cls := SepClass(seps);
    if |s| > 0 {
      if !IsSep(s[0], seps) {
        CollapseSepsReplace(s[1..], seps);
      } else {
        var run, t := RunPieces(s, cls);
        assert AllSeps(run, seps);
        CollapseSepRun(run, t, seps);
        CollapseSepsReplace(t, seps);
      }
    }
  }

  /** A run of dots followed by anything else collapses to one `.`. */
  lemma {:induction false} CollapseDotRun(run: string, t: string)
    requires |run| > 0 && forall i :: 0 <= i < |run| ==> run[i] == '.'
    requires |t| == 0 || t[0] != '.'
    ensures CollapseDots(run + t) == "." + CollapseDots(t)
  {
    assert (run + t)[0] == run[0];
    if |run| > 1 {
      assert (run + t)[1] == run[1];
      assert (run + t)[1..] == run[1..] + t;
      assert forall i :: 0 <= i < |run[1..]| ==> run[1..][i] == '.' by {
        forall i | 0 <= i < |run[1..]| ensures run[1..][i] == '.' {
          assert run[1..][i] == run[i + 1];
        }
      }
      CollapseDotRun(run[1..], t);
    } else {
      assert (run + t)[1..] == t;
    }
  }

  /** `fixConsecutivePeriods` is the regex replacement of each dot run by `.`. */
  lemma {:induction false} CollapseDotsReplace(s: string)
    ensures CollapseDots(s) == ReplaceRuns(s, DotClass, '.')
    decreases |s|
  {
    if |s| > 0 {
      if s[0] != '.' {
        CollapseDotsReplace(s[1..]);
      } else {
        var run, t := RunPieces(s, DotClass);
        CollapseDotRun(run, t);
        CollapseDotsReplace(t);
      }
    }
  }

  // ---------------------------------------------------------------------
  // The tag.
  // ---------------------------------------------------------------------

  /** What a tag looks like: no separator, no `..`, no leading `.`. */
  predicate Clean(r: string, seps: Separators)
  {
    NoSeps(r, seps) && NoDoubleDot(r) && (|r| > 0 ==> r[0] != '.')
  }

  /** Every tag is clean. */
  lemma NormalizeClean(s: string, seps: Separators)
    ensures Clean(Normalize(s, seps), seps)
  {
    var a := AnySlashes(LeadingSlash(LeadingPeriod(TrimTrailing(CollapseSeps(s, seps), seps)), seps), seps);
    CollapseDotsNoSeps(a, seps);
  }

  /** The tag is empty exactly when the argument is nothing but separators. */
  lemma NormalizeEmpty(s: string, seps: Separators)
    ensures |Normalize(s, seps)| == 0 <==> AllSeps(s, seps)
  {
    var c := CollapseSeps(s, seps);
    var t := TrimTrailing(c, seps);
    CollapseSepsKeeps(s, seps);
    TrimTrailingKeeps(c, seps);
    StripNonEmpty(s, seps);
    StripNonEmpty(t, seps);
    if AllSeps(s, seps) && |s| > 0 {
      CollapseAllSeps(s, seps);
    }
  }

  /** A nonempty run of separators collapses to a single `/`. */
  lemma {:induction false} CollapseAllSeps(s: string, seps: Separators)
    requires |s| > 0 && AllSeps(s, seps)
    ensures CollapseSeps(s, seps) == "/"
  {
    if |s| > 1 {
      assert IsSep(s[1], seps);
      assert AllSeps(s[1..], seps) by {
        forall i | 0 <= i < |s[1..]| ensures IsSep(s[1..][i], seps) {
          assert s[1..][i] == s[i + 1];
        }
      }
      CollapseAllSeps(s[1..], seps);
    } else {
      assert IsSep(s[0], seps);
    }
  }

  lemma CollapseSepsId(s: string, seps: Separators)
    requires NoSeps(s, seps)
    ensures CollapseSeps(s, seps) == s
  {
    if |s| > 0 {
      assert NoSeps(s[1..], seps) by {
        forall i | 0 <= i < |s[1..]| ensures !IsSep(s[1..][i], seps) {
          assert s[1..][i] == s[i + 1];
        }
      }
      CollapseSepsId(s[1..], seps);
      assert s == [s[0]] + s[1..];
    }
  }

  lemma CollapseDotsId(s: string)
    requires NoDoubleDot(s)
    ensures CollapseDots(s) == s
  {
    if |s| > 0 {
      assert NoDoubleDot(s[1..]) by {
        forall i | 0 <= i < |s[1..]| - 1 ensures !(s[1..][i] == '.' && s[1..][i + 1] == '.') {
          assert s[1..][i] == s[i + 1] && s[1..][i + 1] == s[i + 2];
        }
      }
      CollapseDotsId(s[1..]);
      assert s == [s[0]] + s[1..];
    }
  }

  /** A clean string passes every rewrite unchanged. */
  lemma NormalizeFixed(r: string, seps: Separators)
    requires Clean(r, seps)
    ensures Normalize(r, seps) == r
  {
    CollapseSepsId(r, seps);
    assert TrimTrailing(r, seps) == r;
    assert LeadingPeriod(r) == r;
    assert LeadingSlash(r, seps) == r;
    AnySlashesId(r, seps);
    CollapseDotsId(r);
  }

  /** A tag is its own tag. */
  lemma NormalizeIdempotent(s: string, seps: Separators)
    ensures Normalize(Normalize(s, seps), seps) == Normalize(s, seps)
  {
    NormalizeClean(s, seps);
    NormalizeFixed(Normalize(s, seps), seps);
  }

  // ---------------------------------------------------------------------
  // Worked examples, for any words in place of `usr`, `local` and `foo`,
  // under either reading of the separator class.
  // ---------------------------------------------------------------------

  /** A path component: nonempty, with no separator and no `.`. */
  predicate Word(w: string, seps: Separators)
  {
    |w| > 0 && forall i :: 0 <= i < |w| ==> !IsSep(w[i], seps) && w[i] != '.'
  }

  lemma {:induction false} CollapseSepsPast(w: string, t: string, seps: Separators)
    requires NoSeps(w, seps)
    ensures CollapseSeps(w + t, seps) == w + CollapseSeps(t, seps)
  {
    if |w| > 0 {
      assert (w + t)[1..] == w[1..] + t;
      assert NoSeps(w[1..], seps) by {
        forall i | 0 <= i < |w[1..]| ensures !IsSep(w[1..][i], seps) {
          assert w[1..][i] == w[i + 1];
        }
      }
      CollapseSepsPast(w[1..], t, seps);
      assert w == [w[0]] + w[1..];
    } else {
      assert w + t == t;
    }
  }

  lemma CollapseOneSep(t: string, seps: Separators)
    requires |t| == 0 || !IsSep(t[0], seps)
    ensures CollapseSeps("/" + t, seps) == "/" + CollapseSeps(t, seps)
    ensures CollapseSeps("//" + t, seps) == "/" + CollapseSeps(t, seps)
  {
    assert ("/" + t)[1..] == t;
    assert ("//" + t)[1..] == "/" + t;
  }

  lemma {:induction false} AnySlashesAppend(a: string, b: string, seps: Separators)
    ensures AnySlashes(a + b, seps) == AnySlashes(a, seps) + AnySlashes(b, seps)
  {
    if |a| > 0 {
      assert (a + b)[1..] == a[1..] + b;
      AnySlashesAppend(a[1..], b, seps);
    } else {
      assert a + b == b;
    }
  }

  predicate NoDot(w: string)
  {
    forall i :: 0 <= i < |w| ==> w[i] != '.'
  }

  lemma {:induction false} CollapseDotsPast(w: string, t: string)
    requires NoDot(w)
    ensures CollapseDots(w + t) == w + CollapseDots(t)
  {
    if |w| > 0 {
      assert (w + t)[1..] == w[1..] + t;
      assert w[0] == (w + t)[0];
      CollapseDotsPast(w[1..], t);
      assert w == [w[0]] + w[1..];
    } else {
      assert w + t == t;
    }
  }

  lemma CollapseOneDot(t: string)
    requires |t| == 0 || t[0] != '.'
    ensures CollapseDots("." + t) == "." + CollapseDots(t)
    ensures CollapseDots(".." + t) == "." + CollapseDots(t)
  {
    assert ("." + t)[1..] == t;
    assert (".." + t)[1..] == "." + t;
  }

  /** Turning separators into dots keeps every other character in its place. */
  lemma {:induction false} AnySlashesKeeps(s: string, seps: Separators)
    ensures forall i :: 0 <= i < |s| && !IsSep(s[i], seps) ==> AnySlashes(s, seps)[i] == s[i]
    ensures forall i :: 0 <= i < |s| && IsSep(s[i], seps) ==> AnySlashes(s, seps)[i] == '.'
  {
    if |s| > 0 {
      AnySlashesKeeps(s[1..], seps);
      forall i | 1 <= i < |s| ensures AnySlashes(s, seps)[i] == if IsSep(s[i], seps) then '.' else s[i] {
        assert s[1..][i - 1] == s[i];
      }
    }
  }

  lemma AnySlashesId(w: string, seps: Separators)
    requires NoSeps(w, seps)
    ensures AnySlashes(w, seps) == w
  {
    AnySlashesKeeps(w, seps);
  }

  /** Normalising, one rewrite at a time. */
  lemma NormalizeSteps(s: string, c: string, t: string, l: string, a: string, r: string, seps: Separators)
    requires CollapseSeps(s, seps) == c && TrimTrailing(c, seps) == t
    requires LeadingSlash(LeadingPeriod(t), seps) == l
    requires AnySlashes(l, seps) == a && CollapseDots(a) == r
    ensures Normalize(s, seps) == r
  {
  }

  lemma PrefixWords()
    ensures NoDot("slash") && NoDot("dot")
  {
  }

  lemma AnySlashesPieces(seps: Separators)
    ensures AnySlashes("slash.", seps) == "slash."
    ensures AnySlashes("dot.", seps) == "dot."
    ensures AnySlashes("/", seps) == "."
  {
    assert NoSeps("slash.", seps) && NoSeps("dot.", seps);
    AnySlashesId("slash.", seps);
    AnySlashesId("dot.", seps);
  }

  // `/a//b/` step by step, for words `a` and `b`.

  lemma SlashesSeps(a: string, b: string, seps: Separators)
    requires Word(a, seps) && Word(b, seps)
    ensures CollapseSeps("/" + a + "//" + b + "/", seps) == "/" + (a + ("/" + (b + "/")))
  {
    assert "/" + a + "//" + b + "/" == "/" + (a + ("//" + (b + "/")));
    CollapseSepsPast(b, "/", seps);
    assert CollapseSeps("/", seps) == "/";
    CollapseOneSep(b + "/", seps);
    CollapseSepsPast(a, "//" + (b + "/"), seps);
    CollapseOneSep(a + ("//" + (b + "/")), seps);
  }

  lemma SlashesTrim(a: string, b: string, seps: Separators)
    ensures TrimTrailing("/" + (a + ("/" + (b + "/"))), seps) == "/" + (a + ("/" + b))
  {
    assert "/" + (a + ("/" + (b + "/"))) == ("/" + (a + ("/" + b))) + "/";
  }

  lemma SlashesLead(a: string, b: string, seps: Separators)
    ensures LeadingSlash(LeadingPeriod("/" + (a + ("/" + b))), seps) == "slash." + (a + ("/" + b))
  {
    assert ("/" + (a + ("/" + b)))[1..] == a + ("/" + b);
  }

  lemma AnyWords(a: string, b: string, seps: Separators)
    requires Word(a, seps) && Word(b, seps)
    ensures AnySlashes(a + ("/" + b), seps) == a + ("." + b)
  {
    AnySlashesAppend(a, "/" + b, seps);
    AnySlashesAppend("/", b, seps);
    AnySlashesPieces(seps);
    AnySlashesId(a, seps);
    AnySlashesId(b, seps);
  }

  lemma SlashesAny(a: string, b: string, seps: Separators)
    requires Word(a, seps) && Word(b, seps)
    ensures AnySlashes("slash." + (a + ("/" + b)), seps) == "slash" + ("." + (a + ("." + b)))
  {
    AnySlashesAppend("slash.", a + ("/" + b), seps);
    AnySlashesPieces(seps);
    AnyWords(a, b, seps);
    assert "slash." + (a + ("." + b)) == "slash" + ("." + (a + ("." + b)));
  }

  lemma SlashesDots(a: string, b: string, seps: Separators)
    requires Word(a, seps) && Word(b, seps)
    ensures CollapseDots("slash" + ("." + (a + ("." + b)))) == "slash" + ("." + (a + ("." + b)))
  {
    CollapseDotsPast(b, "");
    assert b + "" == b;
    CollapseOneDot(b);
    CollapseDotsPast(a, "." + b);
    CollapseOneDot(a + ("." + b));
    PrefixWords();
    CollapseDotsPast("slash", "." + (a + ("." + b)));
  }

  lemma SlashesJoin(a: string, b: string)
    ensures "slash" + ("." + (a + ("." + b))) == "slash." + a + "." + b
  {
  }

  /** `/usr//local/` gives `slash.usr.local`, for any two words and either reading. */
  lemma ExampleSlashes(a: string, b: string, seps: Separators)
    requires Word(a, seps) && Word(b, seps)
    ensures Normalize("/" + a + "//" + b + "/", seps) == "slash." + a + "." + b
  {
    SlashesSeps(a, b, seps);
    SlashesTrim(a, b, seps);
    SlashesLead(a, b, seps);
    SlashesAny(a, b, seps);
    SlashesDots(a, b, seps);
    SlashesJoin(a, b);
    NormalizeSteps("/" + a + "//" + b + "/", "/" + (a + ("/" + (b + "/"))), "/" + (a + ("/" + b)),
      "slash." + (a + ("/" + b)), "slash" + ("." + (a + ("." + b))), "slash." + a + "." + b, seps);
  }

  // `./w` step by step, for a word `w`.

  lemma DotSeps(w: string, seps: Separators)
    requires Word(w, seps)
    ensures CollapseSeps("./" + w, seps) == "." + ("/" + w)
  {
    assert "./" + w == "." + ("/" + w);
    CollapseSepsPast(w, "", seps);
    assert w + "" == w;
    CollapseOneSep(w, seps);
    CollapseSepsPast(".", "/" + w, seps);
  }

  lemma DotLead(w: string, seps: Separators)
    requires Word(w, seps)
    ensures TrimTrailing("." + ("/" + w), seps) == "." + ("/" + w)
    ensures LeadingSlash(LeadingPeriod("." + ("/" + w)), seps) == "dot." + ("/" + w)
  {
    assert ("." + ("/" + w))[|w| + 1] == w[|w| - 1];
    assert ("." + ("/" + w))[1..] == "/" + w;
  }

  lemma DotAny(w: string, seps: Separators)
    requires Word(w, seps)
    ensures AnySlashes("dot." + ("/" + w), seps) == "dot" + (".." + w)
  {
    AnySlashesAppend("dot.", "/" + w, seps);
    AnySlashesAppend("/", w, seps);
    AnySlashesPieces(seps);
    AnySlashesId(w, seps);
    assert AnySlashes("/" + w, seps) == "." + w;
    DotJoin2(w);
  }

  lemma DotJoin2(w: string)
    ensures "dot." + ("." + w) == "dot" + (".." + w)
  {
  }

  lemma DotDots(w: string, seps: Separators)
    requires Word(w, seps)
    ensures CollapseDots("dot" + (".." + w)) == "dot." + w
  {
    CollapseOneDot(w);
    CollapseDotsPast(w, "");
    assert w + "" == w;
    PrefixWords();
    CollapseDotsPast("dot", ".." + w);
    DotJoin(w);
  }

  lemma DotJoin(w: string)
    ensures "dot" + ("." + w) == "dot." + w
  {
  }

  /** `./foo` gives `dot.foo`, for any word and either reading. */
  lemma ExampleDot(w: string, seps: Separators)
    requires Word(w, seps)
    ensures Normalize("./" + w, seps) == "dot." + w
  {
    DotSeps(w, seps);
    DotLead(w, seps);
    DotAny(w, seps);
    DotDots(w, seps);
    NormalizeSteps("./" + w, "." + ("/" + w), "." + ("/" + w), "dot." + ("/" + w), "dot" + (".." + w), "dot." + w, seps);
  }

  lemma UsrLocal(seps: Separators)
    ensures Word("usr", seps) && Word("local", seps)
    ensures "/usr//local/" == "/" + "usr" + "//" + "local" + "/"
    ensures "slash.usr.local" == "slash." + "usr" + "." + "local"
  {
  }

  lemma Foo(seps: Separators)
    ensures Word("foo", seps)
    ensures "./foo" == "./" + "foo" && "dot.foo" == "dot." + "foo"
  {
  }

  lemma SlashesAt(s: string, a: string, b: string, r: string, seps: Separators)
    requires Word(a, seps) && Word(b, seps)
    requires s == "/" + a + "//" + b + "/" && r == "slash." + a + "." + b
    ensures Normalize(s, seps) == r
  {
    ExampleSlashes(a, b, seps);
  }

  lemma DotAt(s: string, w: string, r: string, seps: Separators)
    requires Word(w, seps)
    requires s == "./" + w && r == "dot." + w
    ensures Normalize(s, seps) == r
  {
    ExampleDot(w, seps);
  }

  /** `/usr//local/` gives `slash.usr.local`, as the code runs it and under the other reading. */
  lemma ExampleUsrLocal()
    ensures TransformAsWritten("/usr//local/") == "slash.usr.local"
    ensures Transform("/usr//local/") == "slash.usr.local"
  {
    UsrLocal(SlashOnly);
    SlashesAt("/usr//local/", "usr", "local", "slash.usr.local", SlashOnly);
    UsrLocal(SlashAndBackslash);
    SlashesAt("/usr//local/", "usr", "local", "slash.usr.local", SlashAndBackslash);
  }

  /** `./foo` gives `dot.foo`. */
  lemma ExampleFoo()
    ensures TransformAsWritten("./foo") == "dot.foo"
    ensures Transform("./foo") == "dot.foo"
  {
    Foo(SlashOnly);
    DotAt("./foo", "foo", "dot.foo", SlashOnly);
    Foo(SlashAndBackslash);
    DotAt("./foo", "foo", "dot.foo", SlashAndBackslash);
  }

  /** The root directory gives the empty tag. */
  lemma ExampleRoot()
    ensures TransformAsWritten("/") == ""
    ensures Transform("/") == ""
  {
    CollapseAllSeps("/", SlashOnly);
    CollapseAllSeps("/", SlashAndBackslash);
  }

  /**
   As the code runs it, a tag clean of `/` alone passes unchanged, whatever
   backslashes it holds.
   */
  lemma BackslashSurvives(s: string)
    requires Clean(s, SlashOnly)
    ensures TransformAsWritten(s) == s
  {
    NormalizeFixed(s, SlashOnly);
  }

  lemma BackslashWord()
    ensures Clean("a\\b", SlashOnly) && !NoSeps("a\\b", SlashAndBackslash)
  {
    assert IsSep("a\\b"[1], SlashAndBackslash);
  }

  /**
   So `a\b` keeps its backslash, which the reading of the class as it is
   spelled would have turned into a `.`.
   */
  lemma BackslashExample()
    ensures TransformAsWritten("a\\b") == "a\\b"
    ensures !NoSeps(TransformAsWritten("a\\b"), SlashAndBackslash)
  {
    BackslashWord();
    BackslashSurvives("a\\b");
  }

  /** With both separators matched, neither can reach the tag. */
  lemma TransformClean(s: string)
    ensures forall i :: 0 <= i < |Transform(s)| ==> Transform(s)[i] != '/' && Transform(s)[i] != '\\'
    ensures NoDoubleDot(Transform(s))
  {
    NormalizeClean(s, SlashAndBackslash);
    assert NoSeps(Transform(s), SlashAndBackslash);
  }

  // ---------------------------------------------------------------------
  // The command-line arguments.
  // ---------------------------------------------------------------------

  /**
   `trailingSlash.replaceFirst(arg, "")`, falling back to `fallback` when
   nothing is left: `/` for the top node, `/tmp` for the results directory.
   */
  function TrimArg(arg: string, fallback: string, seps: Separators): (r: string)
    requires |fallback| > 0
    ensures |r| > 0
  {
    var t := TrimTrailing(arg, seps);
    if |t| == 0 then fallback else t
  }

  /**
   An empty argument or a lone separator gives the fallback; any other
   argument loses at most one trailing separator.
   */
  lemma TrimArgShape(arg: string, fallback: string, seps: Separators)
    requires |fallback| > 0
    ensures var r := TrimArg(arg, fallback, seps);
      && ((|arg| == 0 || (|arg| == 1 && IsSep(arg[0], seps))) ==> r == fallback)
      && (|arg| > 1 || (|arg| == 1 && !IsSep(arg[0], seps)) ==>
            (r == arg && !IsSep(arg[|arg| - 1], seps))
            || (arg == r + [arg[|arg| - 1]] && IsSep(arg[|arg| - 1], seps)))
  {
    if |arg| > 0 && IsSep(arg[|arg| - 1], seps) {
      assert arg == arg[..|arg| - 1] + [arg[|arg| - 1]];
    }
  }
}
