/** The pieces of the .NET string library that the table-of-contents code relies on:
    ordinal replace-all (String.Replace and StringBuilder.Replace), String.Join,
    Int32.ToString for non-negative values, and the subsequence relation that
    describes what deleting tokens leaves behind. */
module Text {

  datatype Option<T> = None | Some(value: T)

  // ---------------------------------------------------------------------------
  // Occurrences and ordinal replace-all
  // ---------------------------------------------------------------------------

  /** `pat` occurs in `s` starting at index `i` (ordinal, case-sensitive). */
  predicate OccursAt(s: string, pat: string, i: int)
  {
    0 <= i && i + |pat| <= |s| && s[i..i + |pat|] == pat
  }

  predicate Occurs(s: string, pat: string)
  {
    exists i :: 0 <= i <= |s| && OccursAt(s, pat, i)
  }

  /** Ordinal replace-all as .NET performs it: the text is scanned from left to
      right, every occurrence found is replaced, the scan resumes after it (so
      occurrences never overlap) and the inserted text is never rescanned. */
  function ReplaceAll(s: string, pat: string, rep: string): string
    requires |pat| > 0
    decreases |s|
  {
    if |s| < |pat| then s
    else if s[..|pat|] == pat then rep + ReplaceAll(s[|pat|..], pat, rep)
    else [s[0]] + ReplaceAll(s[1..], pat, rep)
  }

  /** A text without the pattern comes back unchanged. */
  lemma {:induction false} ReplaceAllAbsent(s: string, pat: string, rep: string)
    requires |pat| > 0 && !Occurs(s, pat)
    ensures ReplaceAll(s, pat, rep) == s
    decreases |s|
  {
    if |s| < |pat| {
    } else {
      assert !OccursAt(s, pat, 0);
      forall i ensures !OccursAt(s[1..], pat, i) {
        if OccursAt(s[1..], pat, i) {
          assert s[1..][i..i + |pat|] == s[i + 1..i + 1 + |pat|];
          assert OccursAt(s, pat, i + 1);
        }
      }
      ReplaceAllAbsent(s[1..], pat, rep);
    }
  }

  /** A prefix holding no first character of the pattern is copied as it is. */
  lemma {:induction false} ReplaceAllPlainPrefix(a: string, s: string, pat: string, rep: string)
    requires |pat| > 0 && pat[0] !in a
    ensures ReplaceAll(a + s, pat, rep) == a + ReplaceAll(s, pat, rep)
    decreases |a|
  {
    if a == [] {
      assert a + s == s;
    } else {
      ReplaceAllPlainPrefix(a[1..], s, pat, rep);
      assert a + s == [a[0]] + (a[1..] + s);
      ReplaceAllSkip(a[0], a[1..] + s, pat, rep);
      assert [a[0]] + (a[1..] + ReplaceAll(s, pat, rep)) == a + ReplaceAll(s, pat, rep);
    }
  }

  /** A character that does not start the pattern is copied as it is. */
  lemma ReplaceAllSkip(c: char, s: string, pat: string, rep: string)
    requires |pat| > 0 && c != pat[0]
    ensures ReplaceAll([c] + s, pat, rep) == [c] + ReplaceAll(s, pat, rep)
  {
    var t := [c] + s;
    assert t[1..] == s;
    if |t| < |pat| {
      assert ReplaceAll(s, pat, rep) == s;
    } else {
      assert t[..|pat|][0] != pat[0];
    }
  }

  /** An occurrence at the front is replaced, and the scan goes on after it. */
  lemma ReplaceAllFront(s: string, pat: string, rep: string)
    requires |pat| > 0
    ensures ReplaceAll(pat + s, pat, rep) == rep + ReplaceAll(s, pat, rep)
  {
    assert (pat + s)[..|pat|] == pat;
    assert (pat + s)[|pat|..] == s;
  }

  /** A text lacking the first character of a pattern does not contain it. */
  lemma AbsentHeadExcludesPattern(s: string, pat: string)
    requires |pat| > 0 && pat[0] !in s
    ensures !Occurs(s, pat)
  {
  }

  /** An occurrence in the tail of a text is an occurrence one further on in the text. */
  lemma OccursShift(s: string, pat: string)
    requires |s| > 0
    ensures forall j :: 0 <= j ==> (OccursAt(s[1..], pat, j) <==> OccursAt(s, pat, j + 1))
  {
    forall j | 0 <= j
      ensures OccursAt(s[1..], pat, j) <==> OccursAt(s, pat, j + 1)
    {
      if j + 1 + |pat| <= |s| {
        assert s[1..][j..j + |pat|] == s[j + 1..j + 1 + |pat|];
      }
    }
  }

  lemma {:induction false} ReplaceAllLength(s: string, pat: string, rep: string)
    requires |pat| > 0
    ensures |rep| <= |pat| ==> |ReplaceAll(s, pat, rep)| <= |s|
    ensures |rep| >= |pat| ==> |ReplaceAll(s, pat, rep)| >= |s|
    decreases |s|
  {
    if |s| < |pat| {
    } else if s[..|pat|] == pat {
      ReplaceAllLength(s[|pat|..], pat, rep);
    } else {
      ReplaceAllLength(s[1..], pat, rep);
    }
  }

  /** Replacing a pattern by a different text changes the text exactly when
      the pattern occurs in it. */
  lemma ReplaceAllChangesIff(s: string, pat: string, rep: string)
    requires |pat| > 0 && rep != pat
    ensures ReplaceAll(s, pat, rep) == s <==> !Occurs(s, pat)
  {
    if Occurs(s, pat) {
      ReplaceAllChanges(s, pat, rep);
    } else {
      ReplaceAllAbsent(s, pat, rep);
    }
  }

  lemma {:induction false} ReplaceAllChanges(s: string, pat: string, rep: string)
    requires |pat| > 0 && rep != pat && Occurs(s, pat)
    ensures ReplaceAll(s, pat, rep) != s
    decreases |s|
  {
    var r := ReplaceAll(s, pat, rep);
    if s[..|pat|] == pat {
      var rest := s[|pat|..];
      ReplaceAllLength(rest, pat, rep);
      assert r == rep + ReplaceAll(rest, pat, rep);
      if |rep| == |pat| {
        assert r[..|pat|] == rep;
      }
    } else {
      var i :| 0 <= i <= |s| && OccursAt(s, pat, i);
      assert i != 0;
      OccursShift(s, pat);
      assert OccursAt(s[1..], pat, i - 1);
      ReplaceAllChanges(s[1..], pat, rep);
      assert r == [s[0]] + ReplaceAll(s[1..], pat, rep);
      assert r[1..] == ReplaceAll(s[1..], pat, rep);
    }
  }

  // ---------------------------------------------------------------------------
  // Subsequences: what deleting tokens leaves behind
  // ---------------------------------------------------------------------------

  /** `a` can be obtained from `b` by deleting characters. */
  predicate IsSubsequence(a: string, b: string)
    decreases |b|
  {
    if a == [] then true
    else if b == [] then false
    else (a[0] == b[0] && IsSubsequence(a[1..], b[1..])) || IsSubsequence(a, b[1..])
  }

  lemma {:induction false} SubsequenceReflexive(a: string)
    ensures IsSubsequence(a, a)
    decreases |a|
  {
    if a != [] {
      SubsequenceReflexive(a[1..]);
    }
  }

  lemma {:induction false} SubsequenceOfSuffix(a: string, b: string, k: nat)
    requires k <= |b| && IsSubsequence(a, b[k..])
    ensures IsSubsequence(a, b)
    decreases k
  {
    if k > 0 {
      assert b[k - 1..][1..] == b[k..];
      SubsequenceOfSuffix(a, b, k - 1);
    }
  }

  lemma {:induction false} SubsequenceTransitive(a: string, b: string, c: string)
    requires IsSubsequence(a, b) && IsSubsequence(b, c)
    ensures IsSubsequence(a, c)
    decreases |c|
  {
    if a == [] {
    } else if IsSubsequence(b, c[1..]) {
      SubsequenceTransitive(a, b, c[1..]);
    } else if a[0] == b[0] && IsSubsequence(a[1..], b[1..]) {
      SubsequenceTransitive(a[1..], b[1..], c[1..]);
    } else {
      SubsequenceTransitive(a, b[1..], c[1..]);
    }
  }

  /** A character absent from a text is absent from every subsequence of it. */
  lemma {:induction false} SubsequenceKeepsAbsent(a: string, b: string, c: char)
    requires IsSubsequence(a, b) && c !in b
    ensures c !in a
    decreases |b|
  {
    if a != [] {
      if a[0] == b[0] && IsSubsequence(a[1..], b[1..]) {
        SubsequenceKeepsAbsent(a[1..], b[1..], c);
        assert a == [a[0]] + a[1..];
      } else {
        SubsequenceKeepsAbsent(a, b[1..], c);
      }
    }
  }

  /** Deleting every occurrence of a token leaves a subsequence of the text. */
  lemma {:induction false} DeleteAllSubsequence(s: string, tok: string)
    requires |tok| > 0
    ensures IsSubsequence(ReplaceAll(s, tok, ""), s)
    decreases |s|
  {
    if |s| < |tok| {
      SubsequenceReflexive(s);
    } else if s[..|tok|] == tok {
      DeleteAllSubsequence(s[|tok|..], tok);
      assert ReplaceAll(s, tok, "") == ReplaceAll(s[|tok|..], tok, "");
      SubsequenceOfSuffix(ReplaceAll(s, tok, ""), s, |tok|);
    } else {
      DeleteAllSubsequence(s[1..], tok);
      var r := ReplaceAll(s, tok, "");
      assert r == [s[0]] + ReplaceAll(s[1..], tok, "");
      assert r[0] == s[0] && r[1..] == ReplaceAll(s[1..], tok, "");
    }
  }

  /** Deleting a one-character token removes that character entirely. */
  lemma {:induction false} DeleteAllCharRemoves(s: string, c: char)
    ensures c !in ReplaceAll(s, [c], "")
    decreases |s|
  {
    if |s| >= 1 {
      DeleteAllCharRemoves(s[1..], c);
      if s[..1] != [c] {
        assert s[0] != c;
      }
    }
  }

  /** Deleting a token that is one character doubled (such as "@@") leaves no
      two such characters side by side: after a kept `c` the scan resumes at
      the very next character, which therefore is not `c`. */
  lemma {:induction false} DeleteAllDoubledRemoves(s: string, c: char)
    ensures !Occurs(ReplaceAll(s, [c, c], ""), [c, c])
    decreases |s|
  {
    var r := ReplaceAll(s, [c, c], "");
    if |s| < 2 {
    } else if s[..2] == [c, c] {
      DeleteAllDoubledRemoves(s[2..], c);
      assert r == ReplaceAll(s[2..], [c, c], "");
    } else {
      var t := ReplaceAll(s[1..], [c, c], "");
      DeleteAllDoubledRemoves(s[1..], c);
      assert r == [s[0]] + t;
      assert r[1..] == t;
      OccursShift(r, [c, c]);
      if s[0] == c {
        DeleteAllKeepsHead(s[1..], [c, c]);
        assert r[1] != c;
      }
      forall i | 0 <= i <= |r| ensures !OccursAt(r, [c, c], i) {
        if i > 0 {
          assert !OccursAt(t, [c, c], i - 1);
        }
      }
    }
  }

  /** A text whose first character does not start the token keeps that
      character in front after deletion. */
  lemma DeleteAllKeepsHead(s: string, tok: string)
    requires |tok| > 0 && |s| > 0 && s[0] != tok[0]
    ensures |ReplaceAll(s, tok, "")| > 0 && ReplaceAll(s, tok, "")[0] == s[0]
  {
    if |s| >= |tok| {
      assert s[..|tok|][0] != tok[0];
    }
  }

  // ---------------------------------------------------------------------------
  // Repetition and joining
  // ---------------------------------------------------------------------------

  /** `n` copies of `x`, one after the other. */
  function Repeat(x: string, n: nat): string
  {
    if n == 0 then "" else Repeat(x, n - 1) + x
  }

  /** String.Join(sep, parts): the parts with `sep` between consecutive ones. */
  function Join(sep: string, parts: seq<string>): string
  {
    if |parts| == 0 then ""
    else if |parts| == 1 then parts[0]
    else Join(sep, parts[..|parts| - 1]) + sep + parts[|parts| - 1]
  }

  /** Split on a separator character, the inverse of Join on parts that do not
      contain the separator. */
  function Split(s: string, sep: char): (parts: seq<string>)
    ensures |parts| > 0
  {
    if s == [] then [""]
    else
      var p := Split(s[..|s| - 1], sep);
      if s[|s| - 1] == sep then p + [""]
      else p[..|p| - 1] + [p[|p| - 1] + [s[|s| - 1]]]
  }

  lemma {:induction false} SplitAppendPart(a: string, sep: char, x: string)
    requires sep !in x
    ensures Split(a + [sep] + x, sep) == Split(a, sep) + [x]
    decreases |x|
  {
    if x == [] {
      assert a + [sep] + x == a + [sep];
      assert (a + [sep])[..|a + [sep]| - 1] == a;
    } else {
      var y := x[..|x| - 1];
      SplitAppendPart(a, sep, y);
      var s := a + [sep] + x;
      assert s[..|s| - 1] == a + [sep] + y;
      assert s[|s| - 1] == x[|x| - 1];
      assert y + [x[|x| - 1]] == x;
    }
  }

  lemma {:induction false} SplitWithoutSeparator(x: string, sep: char)
    requires sep !in x
    ensures Split(x, sep) == [x]
    decreases |x|
  {
    if x != [] {
      SplitWithoutSeparator(x[..|x| - 1], sep);
      assert x[..|x| - 1] + [x[|x| - 1]] == x;
    }
  }

  /** Joining parts that do not contain the separator can be undone by Split. */
  lemma {:induction false} SplitJoin(parts: seq<string>, sep: char)
    requires |parts| > 0
    requires forall i :: 0 <= i < |parts| ==> sep !in parts[i]
    ensures Split(Join([sep], parts), sep) == parts
    decreases |parts|
  {
    if |parts| == 1 {
      SplitWithoutSeparator(parts[0], sep);
    } else {
      var init := parts[..|parts| - 1];
      SplitJoin(init, sep);
      SplitAppendPart(Join([sep], init), sep, parts[|parts| - 1]);
      assert init + [parts[|parts| - 1]] == parts;
    }
  }

  // ---------------------------------------------------------------------------
  // Int32.ToString for non-negative values
  // ---------------------------------------------------------------------------

  predicate IsDigit(c: char)
  {
    '0' <= c <= '9'
  }

  function DigitChar(d: nat): (c: char)
    requires d < 10
    ensures IsDigit(c)
  {
    (('0' as int) + d) as char
  }

  /** The decimal representation of `n`, without leading zeros. */
  function NatToString(n: nat): (s: string)
    ensures |s| > 0
    ensures forall i :: 0 <= i < |s| ==> IsDigit(s[i])
    ensures |s| > 1 ==> s[0] != '0'
    decreases n
  {
    if n < 10 then [DigitChar(n)] else NatToString(n / 10) + [DigitChar(n % 10)]
  }

  /** The value of a string of decimal digits. */
  function DigitsValue(s: string): nat
    requires forall i :: 0 <= i < |s| ==> IsDigit(s[i])
  {
    if s == [] then 0
    else
      assert IsDigit(s[|s| - 1]);
      DigitsValue(s[..|s| - 1]) * 10 + ((s[|s| - 1] as int) - ('0' as int))
  }

  lemma {:induction false} NatToStringRoundTrip(n: nat)
    ensures DigitsValue(NatToString(n)) == n
    decreases n
  {
    if n >= 10 {
      NatToStringRoundTrip(n / 10);
      var s := NatToString(n);
      assert s[..|s| - 1] == NatToString(n / 10);
    }
  }
}
