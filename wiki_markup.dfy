/** StripWikiMarkup (Toc.cs:145-170): the text shown for a heading is cleaned
    of wiki markup by deleting a fixed, ordered list of literal tokens, each
    deletion removing every occurrence of its token. */
module WikiMarkup {
  import opened Text

  /** The tokens deleted, in the order of Toc.cs:151-167. The token at index 13
      is written "<A7><A7>" in the source file; it is kept literally. */
  const WikiTokens: seq<string> := [
    "*", "<", ">", "[", "]", "{", "}",
    "'''", "''",
    "=====", "====", "===", "==",
    "<A7><A7>",
    "__", "--", "@@"
  ]

  /** Index of the "<A7><A7>" token in WikiTokens. */
  const SectionSignToken := 13

  predicate NonEmptyTokens(toks: seq<string>)
  {
    forall i :: 0 <= i < |toks| ==> |toks[i]| > 0
  }

  /** Delete every occurrence of each token in turn, first token first. */
  function DeleteTokens(s: string, toks: seq<string>): string
    requires NonEmptyTokens(toks)
  {
    if toks == [] then s
    else ReplaceAll(DeleteTokens(s, toks[..|toks| - 1]), toks[|toks| - 1], "")
  }

  /** Toc.cs:145-170. An empty text gives the empty text; otherwise the
      17 deletions are applied in order. */
  function StripWikiMarkup(content: string): (r: string)
    ensures content == [] ==> r == []
    ensures IsSubsequence(r, content)
    ensures forall c :: c in "*<>[]{}" ==> c !in r
    ensures !Occurs(r, "@@")
  {
    if content == [] then []
    else
      WikiTokensDeletion(content);
      DeleteTokens(content, WikiTokens)
  }

  // ---------------------------------------------------------------------------
  // Properties
  // ---------------------------------------------------------------------------

  lemma {:induction false} DeleteTokensSubsequence(s: string, toks: seq<string>)
    requires NonEmptyTokens(toks)
    ensures IsSubsequence(DeleteTokens(s, toks), s)
    decreases |toks|
  {
    if toks == [] {
      SubsequenceReflexive(s);
    } else {
      var before := DeleteTokens(s, toks[..|toks| - 1]);
      DeleteTokensSubsequence(s, toks[..|toks| - 1]);
      DeleteAllSubsequence(before, toks[|toks| - 1]);
      SubsequenceTransitive(DeleteTokens(s, toks), before, s);
    }
  }

  /** A one-character token anywhere in the list is absent from the result:
      the later deletions only remove characters. */
  lemma {:induction false} DeleteTokensRemovesChar(s: string, toks: seq<string>, j: nat, c: char)
    requires NonEmptyTokens(toks)
    requires j < |toks| && toks[j] == [c]
    ensures c !in DeleteTokens(s, toks)
    decreases |toks|
  {
    var before := DeleteTokens(s, toks[..|toks| - 1]);
    if j == |toks| - 1 {
      DeleteAllCharRemoves(before, c);
    } else {
      DeleteTokensRemovesChar(s, toks[..|toks| - 1], j, c);
      DeleteAllSubsequence(before, toks[|toks| - 1]);
      SubsequenceKeepsAbsent(DeleteTokens(s, toks), before, c);
    }
  }

  /** Running two lists of deletions one after the other is running their
      concatenation. */
  lemma {:induction false} DeleteTokensAppend(s: string, a: seq<string>, b: seq<string>)
    requires NonEmptyTokens(a) && NonEmptyTokens(b)
    ensures NonEmptyTokens(a + b)
    ensures DeleteTokens(s, a + b) == DeleteTokens(DeleteTokens(s, a), b)
    decreases |b|
  {
    if b == [] {
      assert a + b == a;
    } else {
      DeleteTokensAppend(s, a, b[..|b| - 1]);
      assert (a + b)[..|a + b| - 1] == a + b[..|b| - 1];
    }
  }

  /** Running the whole token list leaves a subsequence of the input that
      contains none of the characters `* < > [ ] { }` and no "@@". */
  lemma WikiTokensDeletion(content: string)
    ensures var r := DeleteTokens(content, WikiTokens);
      && IsSubsequence(r, content)
      && (forall c :: c in "*<>[]{}" ==> c !in r)
      && !Occurs(r, "@@")
  {
    var r := DeleteTokens(content, WikiTokens);
    DeleteTokensSubsequence(content, WikiTokens);
    forall c | c in "*<>[]{}" ensures c !in r {
      var j :| 0 <= j < 7 && "*<>[]{}"[j] == c;
      DeleteTokensRemovesChar(content, WikiTokens, j, c);
    }
    DeleteAllDoubledRemoves(DeleteTokens(content, WikiTokens[..16]), '@');
  }

  /** The "<A7><A7>" deletion can never match: its "<" was already deleted at
      Toc.cs:152, so stripping with or without that step gives the same text. */
  lemma StripSectionSignStepNeverMatches(content: string)
    ensures StripWikiMarkup(content) ==
      if content == [] then [] else DeleteTokens(content, WikiTokens[..SectionSignToken] + WikiTokens[SectionSignToken + 1..])
  {
    if content != [] {
      var head := WikiTokens[..SectionSignToken];
      var tail := WikiTokens[SectionSignToken + 1..];
      var x := DeleteTokens(content, head);
      DeleteTokensRemovesChar(content, head, 1, '<');
      AbsentHeadExcludesPattern(x, "<A7><A7>");
      ReplaceAllAbsent(x, "<A7><A7>", "");
      assert WikiTokens[..SectionSignToken + 1] == head + ["<A7><A7>"];
      DeleteTokensAppend(content, head, ["<A7><A7>"]);
      assert WikiTokens == WikiTokens[..SectionSignToken + 1] + tail;
      DeleteTokensAppend(content, WikiTokens[..SectionSignToken + 1], tail);
      DeleteTokensAppend(content, head, tail);
    }
  }

  /** Deleting tokens whose first characters are all absent changes nothing. */
  lemma {:induction false} DeleteTokensAbsent(s: string, toks: seq<string>)
    requires NonEmptyTokens(toks)
    requires forall i :: 0 <= i < |toks| ==> toks[i][0] !in s
    ensures DeleteTokens(s, toks) == s
    decreases |toks|
  {
    if toks != [] {
      DeleteTokensAbsent(s, toks[..|toks| - 1]);
      AbsentHeadExcludesPattern(s, toks[|toks| - 1]);
      ReplaceAllAbsent(s, toks[|toks| - 1], "");
    }
  }

  /** Text holding no character that starts a token comes back unchanged. */
  lemma StripPlainText(content: string)
    requires forall c :: c in content ==> c !in "*<>[]{}'=_-@"
    ensures StripWikiMarkup(content) == content
  {
    if content != [] {
      DeleteTokensAbsent(content, WikiTokens);
    }
  }
}
