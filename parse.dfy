/** Parse (Toc.cs:126-143): finds the first "{toc}" placeholder, matched
    without regard to case, and replaces every occurrence of the text it
    matched by the rendered table of contents. */
module TocPlaceholder {
  import opened Text
  import opened TocRender
  import opened TocProperties

  /** The pattern of the regular expression at Toc.cs:42, in lower case. */
  const Placeholder := "{toc}"

  /** Formatter.DetectHeaders(page): the headings of a page. */
  type HeaderDetector = string -> seq<HPosition>

  /** ASCII lower-casing. */
  function Lower(c: char): (r: char)
    ensures 'A' <= c <= 'Z' ==> 'a' <= r <= 'z'
    ensures !('A' <= c <= 'Z') ==> r == c
  {
    if 'A' <= c <= 'Z' then (c as int + ('a' as int - 'A' as int)) as char else c
  }

  /** ASCII lower-casing of a whole text. */
  function LowerText(s: string): (r: string)
    ensures |r| == |s|
    ensures forall k :: 0 <= k < |s| ==> r[k] == Lower(s[k])
  {
    if s == [] then [] else LowerText(s[..|s| - 1]) + [Lower(s[|s| - 1])]
  }

  /** The placeholder matches, ignoring case, at index `i` of the page. */
  predicate MatchesAt(page: string, i: int)
  {
    0 <= i && i + |Placeholder| <= |page| && LowerText(page[i..i + |Placeholder|]) == Placeholder
  }

  /** The first index at or after `from` where the placeholder matches
      (TocRegex.Match scans from the left). */
  function FindToc(page: string, from: nat): (r: Option<nat>)
    ensures r.Some? ==> from <= r.value && MatchesAt(page, r.value)
    ensures r.Some? ==> forall j :: from <= j < r.value ==> !MatchesAt(page, j)
    ensures r.None? <==> forall j :: from <= j ==> !MatchesAt(page, j)
    decreases |page| - from
  {
    if from + |Placeholder| > |page| then None
    else if MatchesAt(page, from) then Some(from)
    else FindToc(page, from + 1)
  }

  /** The table that replaces the placeholder: empty when no heading is
      detected (Toc.cs:136-139). */
  function TableFor(hs: seq<HPosition>, buildAnchor: AnchorBuilder, stripHtml: HtmlStripper): string
    requires ValidHeadings(hs)
  {
    if |hs| == 0 then "" else Toc(hs, buildAnchor, stripHtml)
  }

  /** Toc.cs:128-142 once the table is known: an empty page, or one without
      a placeholder, is returned as it is; otherwise the text the first match
      covers, in its own case, is replaced everywhere by the table. */
  function Substitute(page: string, toc: string): string
  {
    if page == [] then page
    else
      match FindToc(page, 0)
      case None => page
      case Some(i) => ReplaceAll(page, page[i..i + |Placeholder|], toc)
  }

  /** Toc.cs:126-143: the page with its placeholder replaced by the table of
      the headings Formatter.DetectHeaders finds in it. The headings are only
      asked for once a placeholder has matched (Toc.cs:131-135), so only then
      must they be valid. The page changes exactly when it holds a placeholder. */
  function Parse(page: string, detectHeaders: HeaderDetector, buildAnchor: AnchorBuilder, stripHtml: HtmlStripper): (r: string)
    requires page != [] && FindToc(page, 0).Some? ==> ValidHeadings(detectHeaders(page))
    ensures r != page <==> exists j :: MatchesAt(page, j)
  {
    if page == [] || FindToc(page, 0).None? then page
    else
      var toc := TableFor(detectHeaders(page), buildAnchor, stripHtml);
      TableLength(detectHeaders(page), buildAnchor, stripHtml);
      SubstituteChangesIff(page, toc);
      Substitute(page, toc)
  }

  // ---------------------------------------------------------------------------
  // Properties
  // ---------------------------------------------------------------------------

  /** The table of contents is never five characters long, so it never
      equals the matched text. */
  lemma TableLength(hs: seq<HPosition>, buildAnchor: AnchorBuilder, stripHtml: HtmlStripper)
    requires ValidHeadings(hs)
    ensures |TableFor(hs, buildAnchor, stripHtml)| != |Placeholder|
  {
    if |hs| > 0 {
      TocFrame(hs, buildAnchor, stripHtml);
    }
  }

  /** Any text other than five characters long changes the page exactly when
      the page holds a placeholder. */
  lemma SubstituteChangesIff(page: string, toc: string)
    requires |toc| != |Placeholder|
    ensures Substitute(page, toc) != page <==> exists j :: MatchesAt(page, j)
  {
    var f := FindToc(page, 0);
    if f.Some? {
      var i := f.value;
      var m := page[i..i + |Placeholder|];
      assert OccursAt(page, m, i);
      ReplaceAllChanges(page, m, toc);
    }
  }

  /** The first placeholder of a page is found wherever it stands, and every
      later occurrence of the same text is replaced too: the text before the
      first match is kept, the match becomes the table, and the rest of the
      page has each lower-case placeholder replaced. */
  lemma SubstituteEvery(pre: string, post: string, toc: string)
    requires '{' !in pre
    ensures Substitute(pre + Placeholder + post, toc) == pre + toc + ReplaceAll(post, Placeholder, toc)
  {
    SinglePlaceholderFound(pre, post);
    PlaceholdersReplaced(pre, post, toc);
  }

  lemma PlaceholdersReplaced(pre: string, post: string, toc: string)
    requires '{' !in pre
    ensures ReplaceAll(pre + Placeholder + post, Placeholder, toc) == pre + toc + ReplaceAll(post, Placeholder, toc)
  {
    assert pre + Placeholder + post == pre + (Placeholder + post);
    ReplaceAllPlainPrefix(pre, Placeholder + post, Placeholder, toc);
    ReplaceAllFront(post, Placeholder, toc);
  }

  /** A page whose only "{" is that of a single lower-case placeholder gets
      the table in its place and is otherwise kept. */
  lemma SubstituteSinglePlaceholder(pre: string, post: string, toc: string)
    requires '{' !in pre && '{' !in post
    ensures Substitute(pre + Placeholder + post, toc) == pre + toc + post
  {
    SubstituteEvery(pre, post, toc);
    AbsentHeadExcludesPattern(post, Placeholder);
    ReplaceAllAbsent(post, Placeholder, toc);
  }

  lemma SinglePlaceholderFound(pre: string, post: string)
    requires '{' !in pre
    ensures FindToc(pre + Placeholder + post, 0) == Some(|pre|)
    ensures (pre + Placeholder + post)[|pre|..|pre| + |Placeholder|] == Placeholder
  {
    var page := pre + Placeholder + post;
    assert page[|pre|..|pre| + |Placeholder|] == Placeholder;
    assert LowerText(Placeholder) == Placeholder;
    FirstMatchAfterPlain(page, |pre|);
  }

  /** With no heading detected the placeholder is removed. */
  lemma ParseNoHeadings(page: string, detectHeaders: HeaderDetector, buildAnchor: AnchorBuilder, stripHtml: HtmlStripper)
    requires detectHeaders(page) == []
    ensures Parse(page, detectHeaders, buildAnchor, stripHtml) == Substitute(page, "")
  {
  }

  lemma NoHeadingsExample(page: string, detectHeaders: HeaderDetector, buildAnchor: AnchorBuilder, stripHtml: HtmlStripper)
    requires page == "intro " + "{toc}" + " body" && detectHeaders(page) == []
    ensures Parse(page, detectHeaders, buildAnchor, stripHtml) == "intro " + " body"
  {
    ParseNoHeadings(page, detectHeaders, buildAnchor, stripHtml);
    SubstituteSinglePlaceholder("intro ", " body", "");
    EmptyAppend("intro ");
  }

  /** Every occurrence of the matched text is replaced, not only the first:
      a worked instance of SubstituteEvery, with nothing before the first
      placeholder and a second one after it. */
  lemma EveryOccurrenceReplaced(toc: string)
    ensures Substitute("{toc}{toc}", toc) == toc + toc
  {
    var page := "{toc}{toc}";
    assert page == Placeholder + Placeholder;
    assert LowerText(Placeholder) == Placeholder;
    assert FindToc(page, 0) == Some(0);
    ReplaceAllFront(Placeholder, Placeholder, toc);
    ReplaceAllFront([], Placeholder, toc);
    assert Placeholder + [] == Placeholder;
  }

  /** The match ignores case but the replacement does not: once "{TOC}" is
      matched, a later "{toc}" is left alone. */
  lemma MatchedCaseOnly(toc: string)
    ensures Substitute("{TOC}" + " and " + Placeholder, toc) == toc + " and " + Placeholder
  {
    UpperPlaceholderFound();
    UpperPlaceholderReplaced(toc);
  }

  lemma UpperPlaceholderFound()
    ensures FindToc("{TOC}" + " and " + Placeholder, 0) == Some(0)
    ensures ("{TOC}" + " and " + Placeholder)[0..|Placeholder|] == "{TOC}"
  {
    var page := "{TOC}" + " and " + Placeholder;
    assert page[0..|Placeholder|] == "{TOC}";
    assert LowerText("{TOC}") == Placeholder;
  }

  lemma UpperPlaceholderReplaced(toc: string)
    ensures ReplaceAll("{TOC}" + " and " + Placeholder, "{TOC}", toc) == toc + " and " + Placeholder
  {
    var upper := "{TOC}";
    assert upper + " and " + Placeholder == upper + (" and " + Placeholder);
    ReplaceAllFront(" and " + Placeholder, upper, toc);
    ReplaceAllPlainPrefix(" and ", Placeholder, upper, toc);
    LowerPlaceholderKept(toc);
    assert toc + (" and " + Placeholder) == toc + " and " + Placeholder;
  }

  lemma LowerPlaceholderKept(toc: string)
    ensures ReplaceAll(Placeholder, "{TOC}", toc) == Placeholder
  {
    assert Placeholder[..5][1] != "{TOC}"[1];
    assert ReplaceAll(Placeholder, "{TOC}", toc) == [Placeholder[0]] + ReplaceAll(Placeholder[1..], "{TOC}", toc);
  }

  /** FindToc finds the match at `i` when no "{" comes before it. */
  lemma FirstMatchAfterPlain(page: string, i: nat)
    requires MatchesAt(page, i)
    requires forall j :: 0 <= j < i ==> page[j] != '{'
    ensures FindToc(page, 0) == Some(i)
  {
    forall j | 0 <= j < i ensures !MatchesAt(page, j) {
      if j + |Placeholder| <= |page| {
        assert LowerText(page[j..j + |Placeholder|])[0] == Lower(page[j]) != Placeholder[0];
      }
    }
  }
}
