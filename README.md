# Table of contents for MediaWiki-style pages

This project models the table-of-contents generator of the MediaWiki
compatibility plugin (`Mono/Plugins/MediaWikiCompat/Toc.cs`) and proves what
it produces. It has three parts:

- **GenerateToc** renders the ordered list of headings of a page (level, text,
  identifier) as one markup string. While it walks the list it keeps a level
  "stack", one counter per heading level 1..5, a dotted section number per
  heading with the leading zeros dropped, and the indentation tags opened and
  closed by the jump between consecutive levels. The method `TocRender.GenerateToc`
  follows the source statement by statement, with the loop body split into
  helper methods (`ChangeLevel`, `BumpCounter`, `BuildSectionNumber`,
  `AppendEntry`). It is proved equal to the function `TocRender.Toc`. The
  lemmas of `TocProperties` state what that rendering promises.
- **StripWikiMarkup** cleans a heading's text by deleting 17 literal tokens in a
  fixed order. Each deletion removes every occurrence of its token
  (`WikiMarkup`, with worked examples in `WikiExamples`).
- **Parse** finds the first case-insensitive `{toc}` in a page. It then replaces
  every occurrence of the exact text matched with the rendered table
  (`TocPlaceholder`).

`Text` models the pieces of the .NET string library the code relies on. These
are ordinal replace-all (`String.Replace`, `StringBuilder.Replace`),
`String.Join`, and `int.ToString` for naturals.

Two behaviours of the code differ from what a reader might expect. The
model follows the code in both.

- One might expect Parse to replace only the placeholder it found. In fact
  `page.Replace(match.Value, toc)` (Toc.cs:142) replaces every occurrence of
  the exact text matched, and leaves occurrences written in another case
  alone (`SubstituteEvery`, `EveryOccurrenceReplaced`, `MatchedCaseOnly`).
- One might expect stripping wiki markup twice to change nothing more. The
  deletions at Toc.cs:150-167 can join characters into a token that an
  earlier deletion has already passed: `"_--_"` strips to `"__"`, which
  strips to `""` (`StripNotIdempotent`).

The level stack is seeded with 1, not with the lowest level. `lowestLevel` is
the first heading's level, not the minimum level. The emitted tags are not
balanced in general (`UnclosedContainers`).

## Model

| member | source | states |
|---|---|---|
| TocRender.GenerateToc | Mono/Plugins/MediaWikiCompat/Toc.cs:44-124 | The rendered string is the sidebar opening, then every heading's transition tags and row in list order, then one extra `</div>` exactly when the last heading's level differs from the first heading's, then the closing of the three containers. |
| TocRender.EmitHeadings | Mono/Plugins/MediaWikiCompat/Toc.cs:52-118 | After the loop, the level stack holds exactly one element, the last heading's level. The counters are those left by counting every heading in order. The builder holds the opening followed by one fragment per heading, in list order. |
| TocRender.EmitHeading | Mono/Plugins/MediaWikiCompat/Toc.cs:65-118 | One loop pass appends exactly heading k's fragment. It leaves the stack holding only heading k's level and the counters as they are after heading k. |
| TocRender.EmittedStep | Mono/Plugins/MediaWikiCompat/Toc.cs:65-118 | The loop invariant survives one pass: the single-element stack, the counters, and the builder's contents as opening plus fragments. |
| TocRender.ChangeLevel | Mono/Plugins/MediaWikiCompat/Toc.cs:67-82 | The stack keeps its size and its top becomes the heading's level. The tags emitted are exactly the transition from the old top to the new level. |
| TocRender.BumpCounter | Mono/Plugins/MediaWikiCompat/Toc.cs:84-90 | The new counters are the old ones with the heading's level incremented and every deeper level reset to 0. |
| TocRender.BuildSectionNumber | Mono/Plugins/MediaWikiCompat/Toc.cs:96-105 | The list collected is, for levels lowestLevel..level, the decimal strings of the counters with the leading zeros skipped. |
| TocRender.AppendEntry | Mono/Plugins/MediaWikiCompat/Toc.cs:92-117 | Appends exactly one heading row: an optional tocline container, the number span holding the section label, then the anchor link holding the stripped heading text. |
| TocRender.FirstNonZero | Mono/Plugins/MediaWikiCompat/Toc.cs:98-103 | The level where leading-zero skipping stops: every counter before it in the range is zero, and its own counter is non-zero unless it lies past the range. |
| TocRender.CollectedLabelsSkipLeadingZeros | Mono/Plugins/MediaWikiCompat/Toc.cs:96-105 | What the loop collects over any prefix of the range is the decimal strings of the counters from the first non-zero one onward. |
| TocRender.SectionLabels | Mono/Plugins/MediaWikiCompat/Toc.cs:96-107 | The strings the loop collects are exactly the decimal strings of the section number (the counters of lowestLevel..level without their leading zeros). |
| TocRender.ConcatFragments | Mono/Plugins/MediaWikiCompat/Toc.cs:65-118 | Concatenating the fragments appended for the first n headings gives the rendering of those n headings. |
| TocRender.Toc | Mono/Plugins/MediaWikiCompat/Toc.cs:44-124 | The specification of the rendering, with no contract of its own: the opening, the fragments of all headings in list order, the conditional `</div>`, and the closing. `GenerateToc` is proved equal to it, and the `TocProperties` lemmas state its properties. |
| TocRender.TocAssembled | Mono/Plugins/MediaWikiCompat/Toc.cs:119-123 | The loop's output, plus the conditional `</div>` and the closing, is the full specified table. |
| TocProperties.TocFrame | Mono/Plugins/MediaWikiCompat/Toc.cs:50-122 | Every table starts with the sidebar/toc opening and its heading line followed by a newline, and ends with `</div></div></div>`. |
| TocProperties.BumpEffect | Mono/Plugins/MediaWikiCompat/Toc.cs:84-90 | Counting a heading at L adds one to counter L, keeps every shallower counter, and zeroes every deeper counter up to 5 (the definition of `Bump`, restated level by level). |
| TocProperties.NumbersCountSinceShallower | Mono/Plugins/MediaWikiCompat/Toc.cs:84-90 | Each level's counter equals the number of headings at that level since the last heading shallower than it (an independent count). |
| TocProperties.HeadingNumberShape | Mono/Plugins/MediaWikiCompat/Toc.cs:96-107 | A heading's number is empty exactly when the heading is shallower than the first heading. Otherwise it has no leading zero, ends with the heading's own counter (at least 1), and has at most one part per level from the lowest level to its own. |
| TocProperties.SectionLabelRoundTrip | Mono/Plugins/MediaWikiCompat/Toc.cs:104-107 | Splitting a label at "." gives back one decimal string per part, and each string's value is that part. |
| TocProperties.OnePartNumber | Mono/Plugins/MediaWikiCompat/Toc.cs:96-105 | A heading at the lowest level whose counter is non-zero has a one-part number. |
| TocProperties.TwoPartNumber | Mono/Plugins/MediaWikiCompat/Toc.cs:96-105 | One level below a non-zero lowest counter, the number is the lowest counter followed by the heading's own counter. |
| TocProperties.ThreePartNumber | Mono/Plugins/MediaWikiCompat/Toc.cs:96-105 | Two levels below a non-zero lowest counter, the number has three parts, and an inner zero is kept. |
| TocProperties.SiblingCounters | Mono/Plugins/MediaWikiCompat/Toc.cs:84-90 | For levels 1,2,2,1 the counters after each heading are {1:1}, {1:1,2:1}, {1:1,2:2} and {1:2}, with every other counter 0. |
| TocProperties.SiblingNumbers | Mono/Plugins/MediaWikiCompat/Toc.cs:96-105 | Levels 1,2,2,1 get the numbers [1], [1,1], [1,2] and [2]. |
| TocProperties.SiblingLabels | Mono/Plugins/MediaWikiCompat/Toc.cs:96-107 | Levels 1,2,2,1 are labelled "1", "1.1", "1.2" and "2". |
| TocProperties.SkippedLevelNumbers | Mono/Plugins/MediaWikiCompat/Toc.cs:96-105 | Levels 1,3 get the numbers [1] and [1,0,1]. |
| TocProperties.SkippedLevelLabels | Mono/Plugins/MediaWikiCompat/Toc.cs:96-107 | Levels 1,3 are labelled "1" and "1.0.1": the skipped level keeps its inner zero. |
| TocProperties.ShallowerLabels | Mono/Plugins/MediaWikiCompat/Toc.cs:96-107 | Levels 2,1 are labelled "1" and "": a heading shallower than the first gets an empty label. |
| TocProperties.TransitionTags | Mono/Plugins/MediaWikiCompat/Toc.cs:67-81 | A heading at the same level emits nothing. Otherwise the transition emits, in order: `</p>` if the previous level was deeper than the lowest; one `</div>` per level climbed; `<p>` if a climb stops above the lowest level; and, when the new level is deeper than the lowest, one indentation container per level descended (the definitions of `Transition` and `Jump`, restated as one flat sequence of tags). |
| TocProperties.FirstHeadingNoTags | Mono/Plugins/MediaWikiCompat/Toc.cs:53-81 | A first heading at any level 1..5 emits no transition tags. The stack is seeded with 1, and the first heading defines the lowest level, so neither the climb branch nor the descent branch emits anything. |
| TocProperties.OpenContainersTrackLevel | Mono/Plugins/MediaWikiCompat/Toc.cs:67-81 | When no heading is shallower than the first, the indentation containers left open after a heading number exactly the levels between the lowest level and that heading's. |
| TocProperties.UnclosedContainers | Mono/Plugins/MediaWikiCompat/Toc.cs:67-120 | After the single extra `</div>`, a table ending k levels below the lowest still has k-1 containers open: the tags are not balanced. |
| TocProperties.EntryLineIff | Mono/Plugins/MediaWikiCompat/Toc.cs:92-117 | A row starts with the tocline container and ends with its `</div>` exactly when the heading is at the lowest level. |
| WikiMarkup.StripWikiMarkup | Mono/Plugins/MediaWikiCompat/Toc.cs:145-170 | Empty text gives empty text. Any result is a subsequence of the input containing none of `* < > [ ] { }` and no "@@". |
| WikiMarkup.DeleteTokens | Mono/Plugins/MediaWikiCompat/Toc.cs:150-167 | The sequence of `sb.Replace(token, "")` calls: each token in order has every occurrence deleted. It has no contract of its own; the `DeleteTokens*` lemmas state its properties. |
| WikiMarkup.WikiTokensDeletion | Mono/Plugins/MediaWikiCompat/Toc.cs:150-169 | Running the 17 deletions leaves a subsequence of the text without any single-character token and without "@@". |
| WikiMarkup.DeleteTokensSubsequence | Mono/Plugins/MediaWikiCompat/Toc.cs:150-169 | Any sequence of deletions leaves a subsequence of the text. |
| WikiMarkup.DeleteTokensRemovesChar | Mono/Plugins/MediaWikiCompat/Toc.cs:151-157 | A one-character token anywhere in the sequence is absent from the result, since later deletions only remove characters. |
| WikiMarkup.DeleteTokensAppend | Mono/Plugins/MediaWikiCompat/Toc.cs:150-169 | Running two lists of deletions one after the other is the same as running their concatenation. |
| WikiMarkup.DeleteTokensAbsent | Mono/Plugins/MediaWikiCompat/Toc.cs:150-169 | Deleting tokens whose first characters are all absent leaves the text unchanged. |
| WikiMarkup.StripSectionSignStepNeverMatches | Mono/Plugins/MediaWikiCompat/Toc.cs:152-164 | The "<A7><A7>" deletion never matches, because its "<" is already deleted. Stripping with or without that step gives the same text. |
| WikiMarkup.StripPlainText | Mono/Plugins/MediaWikiCompat/Toc.cs:145-170 | Text that holds no character starting any token comes back unchanged. |
| WikiExamples.BoldExample | Mono/Plugins/MediaWikiCompat/Toc.cs:158-159 | "'''" is deleted before "''", so "'''b'''" strips to "b". |
| WikiExamples.StripJoinsUnderscores | Mono/Plugins/MediaWikiCompat/Toc.cs:165-166 | "_--_" strips to "__": the "--" deletion runs after the "__" deletion and joins the underscores. |
| WikiExamples.StripDoubleUnderscore | Mono/Plugins/MediaWikiCompat/Toc.cs:165 | "__" strips to "". |
| WikiExamples.StripNotIdempotent | Mono/Plugins/MediaWikiCompat/Toc.cs:145-170 | Stripping twice can differ from stripping once. |
| TocPlaceholder.FindToc | Mono/Plugins/MediaWikiCompat/Toc.cs:131 | The search returns the leftmost index where "{toc}" matches, ignoring case. It returns nothing exactly when there is no match at all. |
| TocPlaceholder.FirstMatchAfterPlain | Mono/Plugins/MediaWikiCompat/Toc.cs:131 | A match with no "{" before it is the one the search returns. |
| TocPlaceholder.TableLength | Mono/Plugins/MediaWikiCompat/Toc.cs:136-140 | The text put in place of the placeholder (empty, or a full table) is never as long as the matched text. |
| TocPlaceholder.SubstituteChangesIff | Mono/Plugins/MediaWikiCompat/Toc.cs:128-142 | With a replacement of any other length, the page changes exactly when it holds a case-insensitive "{toc}". An empty page comes back unchanged. |
| TocPlaceholder.Parse | Mono/Plugins/MediaWikiCompat/Toc.cs:126-143 | For any page, Parse returns a different page exactly when the page holds a case-insensitive "{toc}". An empty page, or one with no placeholder, comes back unchanged, and its headings are never asked for. |
| TocPlaceholder.Substitute | Mono/Plugins/MediaWikiCompat/Toc.cs:128-142 | Parse once the table is known, with no contract of its own. Its properties are stated by `SubstituteChangesIff`, `SubstituteEvery` and `SubstituteSinglePlaceholder`. |
| TocPlaceholder.TableFor | Mono/Plugins/MediaWikiCompat/Toc.cs:136-140 | The replacement text: empty when no heading is detected, otherwise the rendered table. It has no contract of its own; `TableLength` and `ParseNoHeadings` state its properties. |
| TocPlaceholder.SubstituteEvery | Mono/Plugins/MediaWikiCompat/Toc.cs:131-142 | For any page whose first "{" opens a lower-case placeholder, the text before it is kept and the placeholder becomes the table. Every later lower-case placeholder in the rest of the page is replaced too. |
| TocPlaceholder.SubstituteSinglePlaceholder | Mono/Plugins/MediaWikiCompat/Toc.cs:131-142 | A page with a single lower-case placeholder and no other "{" gets the table in the placeholder's place, and the rest of the page is kept. |
| TocPlaceholder.ParseNoHeadings | Mono/Plugins/MediaWikiCompat/Toc.cs:137-142 | When no heading is detected, the placeholder is replaced by the empty text. |
| TocPlaceholder.NoHeadingsExample | Mono/Plugins/MediaWikiCompat/Toc.cs:126-143 | "intro {toc} body" with no headings becomes "intro  body". |
| TocPlaceholder.EveryOccurrenceReplaced | Mono/Plugins/MediaWikiCompat/Toc.cs:142 | Every occurrence of the matched text is replaced, not only the first. |
| TocPlaceholder.MatchedCaseOnly | Mono/Plugins/MediaWikiCompat/Toc.cs:131-142 | Matching ignores case but replacement does not. Once "{TOC}" is matched, a later "{toc}" is kept. |
| Text.ReplaceAll | Mono/Plugins/MediaWikiCompat/Toc.cs:142 | Ordinal `String.Replace` and `StringBuilder.Replace`: a left-to-right scan that replaces non-overlapping occurrences and never rescans inserted text. It has no contract of its own; the `ReplaceAll*` and `DeleteAll*` lemmas state its properties. |
| Text.ReplaceAllAbsent | Mono/Plugins/MediaWikiCompat/Toc.cs:142 | Replace leaves a text without the pattern unchanged. |
| Text.ReplaceAllFront | Mono/Plugins/MediaWikiCompat/Toc.cs:142 | An occurrence at the front is replaced, and the scan resumes right after it. |
| Text.ReplaceAllPlainPrefix | Mono/Plugins/MediaWikiCompat/Toc.cs:142 | A prefix holding no first character of the pattern is copied unchanged. |
| Text.ReplaceAllChangesIff | Mono/Plugins/MediaWikiCompat/Toc.cs:142 | Replacing a pattern by a different text changes the text exactly when the pattern occurs. |
| Text.ReplaceAllLength | Mono/Plugins/MediaWikiCompat/Toc.cs:151-167 | A shorter replacement never lengthens the text, and a longer one never shortens it. |
| Text.DeleteAllSubsequence | Mono/Plugins/MediaWikiCompat/Toc.cs:151-167 | Deleting a token leaves a subsequence of the text. |
| Text.DeleteAllCharRemoves | Mono/Plugins/MediaWikiCompat/Toc.cs:151-157 | Deleting a one-character token removes every copy of that character. |
| Text.DeleteAllDoubledRemoves | Mono/Plugins/MediaWikiCompat/Toc.cs:167 | After deleting "@@" (a doubled character), no "@@" is left, even where the deletions join characters. |
| Text.Join | Mono/Plugins/MediaWikiCompat/Toc.cs:107 | `String.Join`: the parts with the separator between consecutive ones. It has no contract of its own; `SplitJoin` states that splitting undoes it. |
| Text.SplitJoin | Mono/Plugins/MediaWikiCompat/Toc.cs:107 | `String.Join` on parts without the separator is undone by splitting at the separator. |
| Text.NatToString | Mono/Plugins/MediaWikiCompat/Toc.cs:104 | A counter's string is non-empty, all digits, and has no leading zero. |
| Text.NatToStringRoundTrip | Mono/Plugins/MediaWikiCompat/Toc.cs:104 | Reading a counter's decimal string gives back the counter. |

## Left out

- `hPos.Sort(new HPositionComparer())` (Toc.cs:48): the comparer is not part of this model. GenerateToc takes its list as already sorted, so the in-place reordering of the caller's list is not modelled.
- `Formatter.DetectHeaders`, `Formatter.BuildHAnchor` and `Formatter.StripHtml` (Toc.cs:112, 114, 135) are not part of this model. They are function parameters with no assumed behaviour.
- The .NET regular expression at Toc.cs:42 (`IgnoreCase`, `CultureInvariant`) is modelled as a left-to-right search that lower-cases ASCII letters only. Culture-specific case folding of other characters is not modelled.
- Null pages and null heading lists are not modelled, since strings and sequences have no null. An empty page and an empty heading list are modelled.
- TocRender.GenerateToc requires a non-empty list with levels 1..5. The source reads `hPos[0]` (Toc.cs:63), and Parse calls it only with at least one heading. TocPlaceholder.Parse asks the same of the detected headings, but only for a page where a placeholder matched, since only then does the source detect headings (Toc.cs:131-135).
- Levels outside 1..5 are not modelled. The source accepts some of them and behaves unusually:
  - A level of 0 or less runs without error. For example, a first heading at level 0 pops the seeded 1, emits `</p></div>` before its row (Toc.cs:68-73), and creates the counter `numbers[0]` (Toc.cs:87).
  - A level of 6 or more gets a counter of its own (Toc.cs:87). The reset loop stops at 5 (Toc.cs:89), so that counter is never reset.
  - A heading under a lowest level of 5 or less throws when some level between 6 and its own has no counter yet, because the section-number loop reads that missing key: `numbers[6]` for levels [1,7], or `numbers[7]` for levels [1,6,8] (the heading at 6 created `numbers[6]` at Toc.cs:87, and the reset loop at Toc.cs:89 never removes it). It throws at Toc.cs:104 once leading-zero skipping has stopped (as for levels [1,7] and [1,6,8]), and at Toc.cs:100 while skipping is still going on (as for levels [3,1,7]).
- TocRender.GenerateToc: the platform newline of `AppendLine` (Toc.cs:51) is the fixed string "\n".
- TocRender.BumpCounter: counters are unbounded naturals, so 32-bit overflow of `numbers[hpLevel]++` is not modelled. The `ContainsKey` fallback (Toc.cs:87) is kept, but it cannot trigger for levels 1..5.
- TocRender.GenerateToc: the `StringBuilder`, `Stack<int>` and `List<string>` are modelled as string and sequence values, and the `Dictionary<int, int>` of counters as a map value. The methods reassign these values; they do not update shared objects in place. `hp.ID.ToString()` is the heading's `id` string.
- WikiMarkup.StripWikiMarkup: the 17 in-place `StringBuilder.Replace` calls are modelled as a fold of pure replace-all deletions over the token list.
- `int.ToString` is modelled for naturals as plain decimal digits, without culture formatting.
