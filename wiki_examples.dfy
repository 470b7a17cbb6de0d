/** StripWikiMarkup on a few inputs, worked out step by step. */
module WikiExamples {
  import opened Text
  import opened WikiMarkup

  /** Bold markup goes before italics, so "'''b'''" loses all its quotes. */
  lemma BoldExample()
    ensures StripWikiMarkup("'''b'''") == "b"
  {
    var s := "'''b'''";
    var head, tail := WikiTokens[..7], WikiTokens[8..];
    var bold := ["'''"];
    assert WikiTokens == head + bold + tail;
    DeleteTokensAppend(s, head, bold);
    DeleteTokensAppend(s, head + bold, tail);
    BoldSteps();
  }

  lemma BoldSteps()
    ensures DeleteTokens("'''b'''", WikiTokens[..7]) == "'''b'''"
    ensures ReplaceAll("'''b'''", "'''", "") == "b"
    ensures DeleteTokens("b", WikiTokens[8..]) == "b"
  {
    DeleteTokensAbsent("'''b'''", WikiTokens[..7]);
    BoldReplaced();
    DeleteTokensAbsent("b", WikiTokens[8..]);
  }

  lemma BoldReplaced()
    ensures ReplaceAll("'''b'''", "'''", "") == "b"
  {
    assert ReplaceAll("'''", "'''", "") == "";
    assert ReplaceAll("b'''", "'''", "") == "b";
  }

  /** "_--_" has no "__" when that step runs; the later "--" step then
      joins its two underscores. */
  lemma StripJoinsUnderscores()
    ensures StripWikiMarkup("_--_") == "__"
  {
    var s := "_--_";
    var head := WikiTokens[..14];
    assert WikiTokens == head + ["__"] + ["--"] + ["@@"];
    DeleteTokensAppend(s, head, ["__"]);
    DeleteTokensAppend(s, head + ["__"], ["--"]);
    DeleteTokensAppend(s, head + ["__"] + ["--"], ["@@"]);
    DeleteTokensAbsent(s, head);
    DashSteps();
    AbsentHeadExcludesPattern("__", "@@");
    ReplaceAllAbsent("__", "@@", "");
  }

  lemma DashSteps()
    ensures ReplaceAll("_--_", "__", "") == "_--_"
    ensures ReplaceAll("_--_", "--", "") == "__"
  {
    var s := "_--_";
    forall i | 0 <= i <= |s| ensures !OccursAt(s, "__", i) {
      if 0 <= i <= 2 {
        assert s[i..i + 2][0] == '-' || s[i..i + 2][1] == '-';
      }
    }
    ReplaceAllAbsent(s, "__", "");
    assert ReplaceAll("_", "--", "") == "_";
    assert ReplaceAll("--_", "--", "") == "_";
  }

  /** "__" is deleted whole. */
  lemma StripDoubleUnderscore()
    ensures StripWikiMarkup("__") == ""
  {
    var head := WikiTokens[..14];
    assert WikiTokens == head + ["__"] + WikiTokens[15..];
    DeleteTokensAppend("__", head, ["__"]);
    DeleteTokensAppend("__", head + ["__"], WikiTokens[15..]);
    DeleteTokensAbsent("__", head);
    assert ReplaceAll("__", "__", "") == "";
    DeleteTokensAbsent("", WikiTokens[15..]);
  }

  /** Stripping is not idempotent: stripping "_--_" twice differs from
      stripping it once. */
  lemma StripNotIdempotent()
    ensures StripWikiMarkup(StripWikiMarkup("_--_")) != StripWikiMarkup("_--_")
  {
    StripJoinsUnderscores();
    StripDoubleUnderscore();
  }
}
