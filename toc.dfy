/** GenerateToc (Toc.cs:44-124): renders the table of contents of a page from
    its ordered list of headings. The loop keeps a one-element level stack, a
    counter per heading level, and builds each heading's dotted section number;
    indentation containers are opened and closed from the jump between
    consecutive levels.

    The method GenerateToc follows the source statement by statement; the
    function Toc is its specification, and the lemmas below state what the
    rendering promises. */
module TocRender {
  import opened Text
  import opened WikiMarkup

  /** A detected heading: its level, its raw text and its identifier (already
      converted to text, as `hp.ID.ToString()` does at Toc.cs:112). */
  datatype HPosition = HPosition(level: int, text: string, id: string)

  /** Formatter.BuildHAnchor(text, id): the anchor of a heading. */
  type AnchorBuilder = (string, string) -> string

  /** Formatter.StripHtml(text): the heading text without HTML. */
  type HtmlStripper = string -> string

  // ---------------------------------------------------------------------------
  // Markup fragments (Toc.cs:50-122)
  // ---------------------------------------------------------------------------

  /** The line terminator appended by AppendLine at Toc.cs:51. */
  const NewLine := "\n"
  const TocHeading := "<div id=\"sidebar\"><div id=\"toc-parent\"><div id=\"toc\"><h5>Table of Contents</h5>"
  const TocOpen := TocHeading + NewLine
  const TocClose := "</div></div></div>"
  const IndentOpen := "<div class=\"tocindent\"><p>"
  const DivClose := "</div>"
  const ParaOpen := "<p>"
  const ParaClose := "</p>"
  const LineOpen := "<div class=\"tocline\">"
  const NumberOpen := "<span class=\"number\">"
  const NumberClose := "</span> "
  const LinkOpen := "<a href=\"#"
  const LinkMiddle := "\">"
  const LinkClose := "</a><br/>"

  // ---------------------------------------------------------------------------
  // Levels and counters
  // ---------------------------------------------------------------------------

  predicate ValidLevel(level: int)
  {
    1 <= level <= 5
  }

  predicate ValidHeadings(hs: seq<HPosition>)
  {
    forall i :: 0 <= i < |hs| ==> ValidLevel(hs[i].level)
  }

  /** The counter dictionary always holds exactly the keys 1..5, seeded at
      Toc.cs:54-60. */
  ghost predicate WellKeyed(numbers: map<int, nat>)
  {
    forall k :: k in numbers <==> ValidLevel(k)
  }

  const InitialNumbers: map<int, nat> := map[1 := 0, 2 := 0, 3 := 0, 4 := 0, 5 := 0]

  /** The counters after a heading at `level` (Toc.cs:84-90): its own counter
      goes up by one, every deeper counter is reset to zero. */
  function Bump(numbers: map<int, nat>, level: int): (r: map<int, nat>)
    requires WellKeyed(numbers) && ValidLevel(level)
    ensures WellKeyed(r)
  {
    map i | 1 <= i <= 5 :: if i < level then numbers[i] else if i == level then numbers[i] + 1 else 0
  }

  /** The counters after the first `n` headings have been counted in order. */
  function NumbersAfter(hs: seq<HPosition>, n: nat): (r: map<int, nat>)
    requires ValidHeadings(hs) && n <= |hs|
    ensures WellKeyed(r)
  {
    if n == 0 then InitialNumbers else Bump(NumbersAfter(hs, n - 1), hs[n - 1].level)
  }

  /** The level on top of the stack before heading `i`: the previous heading's
      level, or the 1 pushed at Toc.cs:53 before the first. */
  function PrevLevel(hs: seq<HPosition>, i: nat): int
    requires i <= |hs|
  {
    if i == 0 then 1 else hs[i - 1].level
  }

  // ---------------------------------------------------------------------------
  // Section numbers (Toc.cs:96-107)
  // ---------------------------------------------------------------------------

  /** The first level in lo..hi whose counter is not zero; hi + 1 when all are
      zero, and lo when the range is empty. */
  function FirstNonZero(numbers: map<int, nat>, lo: int, hi: int): (r: int)
    requires WellKeyed(numbers) && 1 <= lo && hi <= 5
    ensures lo <= r && (lo <= hi + 1 ==> r <= hi + 1) && (lo > hi ==> r == lo)
    ensures forall i :: lo <= i < r && i <= hi ==> numbers[i] == 0
    ensures r <= hi ==> numbers[r] != 0
    decreases hi - lo
  {
    if lo > hi then lo
    else if numbers[lo] != 0 then lo
    else FirstNonZero(numbers, lo + 1, hi)
  }

  /** The counters of levels a..b, in order; empty when a > b. */
  function Slice(numbers: map<int, nat>, a: int, b: int): (r: seq<nat>)
    requires WellKeyed(numbers) && (a <= b ==> 1 <= a && b <= 5)
    ensures |r| == if a <= b then b - a + 1 else 0
    ensures forall j :: 0 <= j < |r| ==> r[j] == numbers[a + j]
    decreases b - a
  {
    if a > b then [] else Slice(numbers, a, b - 1) + [numbers[b]]
  }

  /** The section number of a heading at `level`: the counters of levels
      lowest..level with the leading zeros dropped (inner zeros stay). */
  function SectionNumber(numbers: map<int, nat>, lowest: int, level: int): seq<nat>
    requires WellKeyed(numbers) && ValidLevel(lowest) && ValidLevel(level)
  {
    Slice(numbers, FirstNonZero(numbers, lowest, level), level)
  }

  /** The decimal strings of the counters (the List<string> of Toc.cs:104). */
  function NumberStrings(ns: seq<nat>): (r: seq<string>)
    ensures |r| == |ns|
    ensures forall j :: 0 <= j < |ns| ==> r[j] == NatToString(ns[j])
  {
    if ns == [] then [] else NumberStrings(ns[..|ns| - 1]) + [NatToString(ns[|ns| - 1])]
  }

  /** The strings the loop of Toc.cs:98-105 has collected once it has looked
      at levels lo..i-1: nothing while every counter seen is zero, then one
      decimal string per level. */
  function CollectedLabels(numbers: map<int, nat>, lo: int, i: int): seq<string>
    requires WellKeyed(numbers) && 1 <= lo && i <= 6
    decreases i - lo
  {
    if i <= lo then []
    else
      var c := CollectedLabels(numbers, lo, i - 1);
      if c == [] && numbers[i - 1] == 0 then [] else c + [NatToString(numbers[i - 1])]
  }

  /** The section number as shown: its counters joined with ".". */
  function SectionLabel(ns: seq<nat>): string
  {
    Join(".", NumberStrings(ns))
  }

  // ---------------------------------------------------------------------------
  // The rendering, as a specification
  // ---------------------------------------------------------------------------

  /** Tags emitted when the level changes from `prev` to `level` (Toc.cs:67-81):
      the open paragraph is closed unless `prev` is the lowest level, then the
      jump itself. */
  function Transition(prev: int, level: int, lowest: int): string
  {
    if prev == level then "" else (if prev > lowest then ParaClose else "") + Jump(prev, level, lowest)
  }

  /** Toc.cs:72-80: one "</div>" per level climbed (and a new paragraph unless
      back at the lowest level), or one indentation container per level
      descended below the lowest level. */
  function Jump(prev: int, level: int, lowest: int): string
  {
    if prev > level then Repeat(DivClose, prev - level) + (if level > lowest then ParaOpen else "")
    else if level > lowest then Repeat(IndentOpen, level - prev)
    else ""
  }

  /** The row of one heading (Toc.cs:92-117). */
  function Entry(h: HPosition, lowest: int, number: seq<nat>, buildAnchor: AnchorBuilder, stripHtml: HtmlStripper): string
  {
    Row(h.level == lowest, SectionLabel(number), buildAnchor(h.text, h.id), StripWikiMarkup(stripHtml(h.text)))
  }

  /** A row from its parts: a "tocline" container around it when `line`,
      then the number span and the link. */
  function Row(line: bool, numberText: string, anchor: string, shown: string): string
  {
    (if line then LineOpen else "")
    + NumberOpen + numberText + NumberClose
    + LinkOpen + anchor + LinkMiddle
    + shown + LinkClose
    + (if line then DivClose else "")
  }

  /** Everything emitted for heading `i`: the level transition, then its row. */
  function Fragment(hs: seq<HPosition>, i: nat, buildAnchor: AnchorBuilder, stripHtml: HtmlStripper): string
    requires ValidHeadings(hs) && i < |hs|
  {
    var lowest := hs[0].level;
    Transition(PrevLevel(hs, i), hs[i].level, lowest)
    + Entry(hs[i], lowest, SectionNumber(NumbersAfter(hs, i + 1), lowest, hs[i].level), buildAnchor, stripHtml)
  }

  /** The fragments of the first `n` headings, in list order. */
  function Body(hs: seq<HPosition>, n: nat, buildAnchor: AnchorBuilder, stripHtml: HtmlStripper): string
    requires ValidHeadings(hs) && n <= |hs|
  {
    if n == 0 then "" else Body(hs, n - 1, buildAnchor, stripHtml) + Fragment(hs, n - 1, buildAnchor, stripHtml)
  }

  /** The strings one after the other. */
  function Concat(parts: seq<string>): string
  {
    if parts == [] then "" else Concat(parts[..|parts| - 1]) + parts[|parts| - 1]
  }

  /** The whole table of contents (Toc.cs:44-124): the fixed opening, the
      fragments, one extra "</div>" when the last heading is not at the first
      heading's level, and the fixed closing. */
  function Toc(hs: seq<HPosition>, buildAnchor: AnchorBuilder, stripHtml: HtmlStripper): string
    requires |hs| > 0 && ValidHeadings(hs)
  {
    TocOpen + Body(hs, |hs|, buildAnchor, stripHtml)
    + (if hs[|hs| - 1].level != hs[0].level then DivClose else "")
    + TocClose
  }

  // ---------------------------------------------------------------------------
  // The rendering, as the source performs it
  // ---------------------------------------------------------------------------

  /** Toc.cs:67-82: when the stack top differs from the heading's level, pop
      it, emit the closing and opening tags for the jump, and push the new
      level. */
  method ChangeLevel(levels: seq<int>, hpLevel: int, lowestLevel: int) returns (levels': seq<int>, tags: string)
    requires |levels| > 0
    ensures levels' == levels[..|levels| - 1] + [hpLevel]
    ensures tags == Transition(levels[|levels| - 1], hpLevel, lowestLevel)
  {
    levels' := levels;
    tags := "";
    if levels'[|levels'| - 1] != hpLevel {
      var level := levels'[|levels'| - 1];
      levels' := levels'[..|levels'| - 1];
      if level > lowestLevel {
        tags := tags + ParaClose;
      }
      assert tags == if level > lowestLevel then ParaClose else "";
      var jump := "";
      if level > hpLevel {
        var i := level;
        while i > hpLevel
          invariant hpLevel <= i <= level
          invariant jump == Repeat(DivClose, level - i)
        {
          jump := jump + DivClose;
          i := i - 1;
        }
        if hpLevel > lowestLevel {
          jump := jump + ParaOpen;
        }
      } else if hpLevel > lowestLevel {
        var i := level;
        while i < hpLevel
          invariant level <= i <= hpLevel
          invariant jump == Repeat(IndentOpen, i - level)
        {
          jump := jump + IndentOpen;
          i := i + 1;
        }
      }
      assert jump == Jump(level, hpLevel, lowestLevel);
      tags := tags + jump;
      levels' := levels' + [hpLevel];
    }
  }

  /** Toc.cs:84-90: count the heading at its level and reset the deeper levels. */
  method BumpCounter(numbers: map<int, nat>, hpLevel: int) returns (numbers': map<int, nat>)
    requires WellKeyed(numbers) && ValidLevel(hpLevel)
    ensures numbers' == Bump(numbers, hpLevel)
  {
    numbers' := numbers[hpLevel := if hpLevel in numbers then numbers[hpLevel] + 1 else 1];
    var i := hpLevel + 1;
    while i < 6
      invariant hpLevel + 1 <= i <= 6
      invariant WellKeyed(numbers')
      invariant forall j :: 1 <= j <= 5 ==>
        numbers'[j] == if j < hpLevel then numbers[j] else if j == hpLevel then numbers[j] + 1 else if j < i then 0 else numbers[j]
    {
      numbers' := numbers'[i := 0];
      i := i + 1;
    }
  }

  /** Toc.cs:96-105: collect the counters of levels lowestLevel..hpLevel,
      skipping the leading zeros. */
  method BuildSectionNumber(numbers: map<int, nat>, lowestLevel: int, hpLevel: int) returns (sectionNumber: seq<string>)
    requires WellKeyed(numbers) && ValidLevel(lowestLevel) && ValidLevel(hpLevel)
    ensures sectionNumber == CollectedLabels(numbers, lowestLevel, hpLevel + 1)
  {
    var skipLeadingZeros := true;
    sectionNumber := [];
    var i := lowestLevel;
    while i <= hpLevel
      invariant lowestLevel <= i <= 6
      invariant if lowestLevel <= hpLevel + 1 then i <= hpLevel + 1 else i == lowestLevel
      invariant skipLeadingZeros == (sectionNumber == [])
      invariant sectionNumber == CollectedLabels(numbers, lowestLevel, i)
    {
      if skipLeadingZeros {
        if numbers[i] == 0 {
          i := i + 1;
          continue;
        }
        skipLeadingZeros := false;
      }
      sectionNumber := sectionNumber + [NatToString(numbers[i])];
      i := i + 1;
    }
  }

  /** Toc.cs:92-117: append the row of one heading, given the counters after
      it was counted. */
  method AppendEntry(sb: string, hp: HPosition, lowestLevel: int, numbers: map<int, nat>,
                     buildAnchor: AnchorBuilder, stripHtml: HtmlStripper) returns (sb': string)
    requires WellKeyed(numbers) && ValidLevel(lowestLevel) && ValidLevel(hp.level)
    ensures sb' == sb + Entry(hp, lowestLevel, SectionNumber(numbers, lowestLevel, hp.level), buildAnchor, stripHtml)
  {
    var hpLevel := hp.level;
    sb' := sb;
    if hpLevel == lowestLevel {
      sb' := sb' + LineOpen;
    }
    // `row` is what has been appended so far; each append is regrouped by an
    // explicit AppendAssoc step, which keeps the proof within its resource budget.
    ghost var row := if hpLevel == lowestLevel then LineOpen else "";
    EmptyAppend(sb);
    assert sb' == sb + row;

    AppendAssoc(sb, row, NumberOpen);
    sb' := sb' + NumberOpen;
    row := row + NumberOpen;

    var sectionNumber := BuildSectionNumber(numbers, lowestLevel, hpLevel);
    SectionLabels(numbers, lowestLevel, hpLevel);
    ghost var numberText := Join(".", sectionNumber);
    assert numberText == SectionLabel(SectionNumber(numbers, lowestLevel, hpLevel));
    if |sectionNumber| > 0 {
      sb' := sb' + Join(".", sectionNumber);
    }
    EmptyAppend(sb');
    AppendAssoc(sb, row, numberText);
    row := row + numberText;

    ghost var link := buildAnchor(hp.text, hp.id);
    ghost var shown := StripWikiMarkup(stripHtml(hp.text));
    AppendAssoc(sb, row, NumberClose);
    sb' := sb' + NumberClose;
    row := row + NumberClose;
    AppendAssoc(sb, row, LinkOpen);
    sb' := sb' + LinkOpen;
    row := row + LinkOpen;
    AppendAssoc(sb, row, link);
    sb' := sb' + buildAnchor(hp.text, hp.id);
    row := row + link;
    AppendAssoc(sb, row, LinkMiddle);
    sb' := sb' + LinkMiddle;
    row := row + LinkMiddle;
    AppendAssoc(sb, row, shown);
    sb' := sb' + StripWikiMarkup(stripHtml(hp.text));
    row := row + shown;
    AppendAssoc(sb, row, LinkClose);
    sb' := sb' + LinkClose;
    row := row + LinkClose;

    ghost var close := if hpLevel == lowestLevel then DivClose else "";
    if hpLevel == lowestLevel {
      sb' := sb' + DivClose;
    }
    EmptyAppend(sb');
    AppendAssoc(sb, row, close);
    row := row + close;
  }

  /** Toc.cs:44-124, for a list already in the comparer's order. */
  method GenerateToc(hPos: seq<HPosition>, buildAnchor: AnchorBuilder, stripHtml: HtmlStripper) returns (toc: string)
    requires |hPos| > 0 && ValidHeadings(hPos)
    ensures toc == Toc(hPos, buildAnchor, stripHtml)
  {
    var sb := "";
    sb := sb + TocHeading;
    sb := sb + NewLine;
    var lowestLevel := hPos[0].level;
    ghost var opening := sb;
    var levels, numbers, hpLevel;
    ghost var frags;
    sb, levels, numbers, hpLevel, frags := EmitHeadings(hPos, sb, buildAnchor, stripHtml);
    ghost var body, closing := sb, "";
    if hpLevel != lowestLevel {
      sb := sb + DivClose;
      closing := DivClose;
    } else {
      EmptyAppend(body);
    }
    sb := sb + TocClose;
    TocAssembled(hPos, opening, frags, body, levels, numbers, hpLevel, closing, sb, buildAnchor, stripHtml);
    toc := sb;
  }

  /** The loop at Toc.cs:52-118: the level stack starts at 1, the counters at
      zero, and every heading is emitted in list order. */
  method EmitHeadings(hPos: seq<HPosition>, opening: string, buildAnchor: AnchorBuilder, stripHtml: HtmlStripper)
    returns (sb: string, levels: seq<int>, numbers: map<int, nat>, hpLevel: int, ghost frags: seq<string>)
    requires ValidHeadings(hPos) && opening == TocOpen
    ensures Emitted(hPos, |hPos|, opening, frags, sb, levels, numbers, hpLevel, buildAnchor, stripHtml)
  {
    sb := opening;
    levels := [1];
    numbers := InitialNumbers;
    hpLevel := 0;
    frags := [];
    EmittedStart(hPos, opening, buildAnchor, stripHtml);
    for k := 0 to |hPos|
      invariant Emitted(hPos, k, opening, frags, sb, levels, numbers, hpLevel, buildAnchor, stripHtml)
    {
      ghost var before, levelsBefore, numbersBefore, levelBefore := sb, levels, numbers, hpLevel;
      hpLevel := hPos[k].level;
      ghost var frag;
      sb, levels, numbers, frag := EmitHeading(sb, levels, numbers, hPos, k, buildAnchor, stripHtml);
      EmittedStep(hPos, k, opening, frags, before, levelsBefore, numbersBefore, levelBefore, frag, sb, levels, numbers, buildAnchor, stripHtml);
      frags := frags + [frag];
    }
  }

  /** The state of GenerateToc after its loop has handled the first `k`
      headings: the builder holds the opening and their fragments, the level
      stack holds the last level, the counters have counted them, and
      `hpLevel` is the level of the last one (0 before the first). */
  ghost predicate Emitted(hs: seq<HPosition>, k: nat, opening: string, frags: seq<string>, sb: string, levels: seq<int>,
                          numbers: map<int, nat>, hpLevel: int, buildAnchor: AnchorBuilder, stripHtml: HtmlStripper)
  {
    ValidHeadings(hs) && k <= |hs| && opening == TocOpen && |frags| == k
    && (forall i {:trigger Fragment(hs, i, buildAnchor, stripHtml)} :: 0 <= i < k ==> frags[i] == Fragment(hs, i, buildAnchor, stripHtml))
    && sb == opening + Concat(frags)
    && levels == [PrevLevel(hs, k)]
    && numbers == NumbersAfter(hs, k)
    && hpLevel == (if k == 0 then 0 else hs[k - 1].level)
  }

  lemma EmittedStart(hs: seq<HPosition>, opening: string, buildAnchor: AnchorBuilder, stripHtml: HtmlStripper)
    requires ValidHeadings(hs) && opening == TocOpen
    ensures Emitted(hs, 0, opening, [], opening, [1], InitialNumbers, 0, buildAnchor, stripHtml)
  {
    EmptyAppend(TocHeading);
    EmptyAppend(opening);
  }

  lemma EmittedStep(hs: seq<HPosition>, k: nat, opening: string, frags: seq<string>, sb: string, levels: seq<int>,
                    numbers: map<int, nat>, hpLevel: int, frag: string, sb': string, levels': seq<int>, numbers': map<int, nat>,
                    buildAnchor: AnchorBuilder, stripHtml: HtmlStripper)
    requires ValidHeadings(hs) && k < |hs|
    requires Emitted(hs, k, opening, frags, sb, levels, numbers, hpLevel, buildAnchor, stripHtml)
    requires frag == Fragment(hs, k, buildAnchor, stripHtml) && sb' == sb + frag
    requires levels' == [hs[k].level] && numbers' == NumbersAfter(hs, k + 1)
    ensures Emitted(hs, k + 1, opening, frags + [frag], sb', levels', numbers', hs[k].level, buildAnchor, stripHtml)
  {
    assert (frags + [frag])[..k] == frags;
    AppendAssoc(opening, Concat(frags), frag);
    FragmentsExtend(hs, k, frags, frag, buildAnchor, stripHtml);
  }

  lemma FragmentsExtend(hs: seq<HPosition>, k: nat, frags: seq<string>, frag: string, buildAnchor: AnchorBuilder, stripHtml: HtmlStripper)
    requires ValidHeadings(hs) && k < |hs| && |frags| == k
    requires forall i {:trigger Fragment(hs, i, buildAnchor, stripHtml)} :: 0 <= i < k ==> frags[i] == Fragment(hs, i, buildAnchor, stripHtml)
    requires frag == Fragment(hs, k, buildAnchor, stripHtml)
    ensures forall i {:trigger Fragment(hs, i, buildAnchor, stripHtml)} :: 0 <= i < k + 1 ==> (frags + [frag])[i] == Fragment(hs, i, buildAnchor, stripHtml)
  {
  }

  /** Concatenating the fragments of every heading gives the body. */
  lemma {:induction false} ConcatFragments(hs: seq<HPosition>, frags: seq<string>, buildAnchor: AnchorBuilder, stripHtml: HtmlStripper)
    requires ValidHeadings(hs) && |frags| <= |hs|
    requires forall i {:trigger Fragment(hs, i, buildAnchor, stripHtml)} :: 0 <= i < |frags| ==> frags[i] == Fragment(hs, i, buildAnchor, stripHtml)
    ensures Concat(frags) == Body(hs, |frags|, buildAnchor, stripHtml)
  {
    if frags != [] {
      var n := |frags| - 1;
      assert frags[n] == Fragment(hs, n, buildAnchor, stripHtml);
      ConcatFragments(hs, frags[..n], buildAnchor, stripHtml);
    }
  }

  lemma TocAssembled(hs: seq<HPosition>, opening: string, frags: seq<string>, body: string, levels: seq<int>, numbers: map<int, nat>,
                     hpLevel: int, closing: string, sb: string, buildAnchor: AnchorBuilder, stripHtml: HtmlStripper)
    requires |hs| > 0 && ValidHeadings(hs)
    requires Emitted(hs, |hs|, opening, frags, body, levels, numbers, hpLevel, buildAnchor, stripHtml)
    requires closing == if hpLevel != hs[0].level then DivClose else ""
    requires sb == body + closing + TocClose
    ensures sb == Toc(hs, buildAnchor, stripHtml)
  {
    ConcatFragments(hs, frags, buildAnchor, stripHtml);
  }

  /** One pass of the loop at Toc.cs:65-118: heading `k` is emitted after
      the headings before it. */
  method EmitHeading(sb: string, levels: seq<int>, numbers: map<int, nat>, hs: seq<HPosition>, k: nat,
                     buildAnchor: AnchorBuilder, stripHtml: HtmlStripper)
    returns (sb': string, levels': seq<int>, numbers': map<int, nat>, ghost frag: string)
    requires ValidHeadings(hs) && k < |hs|
    requires levels == [PrevLevel(hs, k)] && numbers == NumbersAfter(hs, k)
    ensures frag == Fragment(hs, k, buildAnchor, stripHtml) && sb' == sb + frag
    ensures levels' == [hs[k].level] && numbers' == NumbersAfter(hs, k + 1)
  {
    var hp := hs[k];
    var lowestLevel := hs[0].level;
    var tags;
    levels', tags := ChangeLevel(levels, hp.level, lowestLevel);
    numbers' := BumpCounter(numbers, hp.level);
    sb' := AppendEntry(sb + tags, hp, lowestLevel, numbers', buildAnchor, stripHtml);
    AppendAssoc(sb, tags, Entry(hp, lowestLevel, SectionNumber(numbers', lowestLevel, hp.level), buildAnchor, stripHtml));
    frag := Fragment(hs, k, buildAnchor, stripHtml);
  }

  /** Concatenation regroups freely. */
  lemma AppendAssoc(a: string, b: string, c: string)
    ensures (a + b) + c == a + (b + c)
  {
  }

  /** The empty string is neutral for concatenation. */
  lemma EmptyAppend(a: string)
    ensures "" + a == a && a + "" == a
  {
  }

  // ---------------------------------------------------------------------------
  // Section numbers: the loop's labels are the counters without leading zeros
  // ---------------------------------------------------------------------------

  /** Appending one counter appends its string. */
  lemma NumberStringsAppend(ns: seq<nat>, n: nat)
    ensures NumberStrings(ns + [n]) == NumberStrings(ns) + [NatToString(n)]
  {
    assert (ns + [n])[..|ns|] == ns;
  }

  /** Looking at one level fewer finds the same first non-zero counter, or
      runs past the range. */
  lemma FirstNonZeroShrink(numbers: map<int, nat>, lo: int, hi: int)
    requires WellKeyed(numbers) && 1 <= lo <= hi <= 5
    ensures FirstNonZero(numbers, lo, hi - 1) == if FirstNonZero(numbers, lo, hi) <= hi - 1 then FirstNonZero(numbers, lo, hi) else hi
  {
  }

  /** One step of the loop once the first non-zero counter `f` is known. */
  lemma CollectedLabelsStep(numbers: map<int, nat>, lo: int, i: int, f: int)
    requires WellKeyed(numbers) && 1 <= lo <= f < i <= 6
    requires f == i - 1 ==> numbers[f] != 0
    requires CollectedLabels(numbers, lo, i - 1) == NumberStrings(Slice(numbers, f, i - 2))
    ensures CollectedLabels(numbers, lo, i) == NumberStrings(Slice(numbers, f, i - 1))
  {
    var prefix := Slice(numbers, f, i - 2);
    assert Slice(numbers, f, i - 1) == prefix + [numbers[i - 1]];
    NumberStringsAppend(prefix, numbers[i - 1]);
  }

  /** What the loop collects over levels lo..i-1 is the decimal strings of the
      counters from the first non-zero one up to level i-1. */
  lemma {:induction false} CollectedLabelsSkipLeadingZeros(numbers: map<int, nat>, lo: int, i: int)
    requires WellKeyed(numbers) && 1 <= lo && i <= 6
    ensures CollectedLabels(numbers, lo, i) == NumberStrings(Slice(numbers, FirstNonZero(numbers, lo, i - 1), i - 1))
    decreases i - lo
  {
    if i > lo {
      CollectedLabelsSkipLeadingZeros(numbers, lo, i - 1);
      var f := FirstNonZero(numbers, lo, i - 1);
      FirstNonZeroShrink(numbers, lo, i - 1);
      if f <= i - 1 {
        CollectedLabelsStep(numbers, lo, i, f);
      } else {
        assert numbers[i - 1] == 0;
        assert Slice(numbers, i - 1, i - 2) == [] == Slice(numbers, f, i - 1);
      }
    }
  }

  /** The method's labels are the section number's strings. */
  lemma SectionLabels(numbers: map<int, nat>, lowest: int, level: int)
    requires WellKeyed(numbers) && ValidLevel(lowest) && ValidLevel(level)
    ensures CollectedLabels(numbers, lowest, level + 1) == NumberStrings(SectionNumber(numbers, lowest, level))
  {
    CollectedLabelsSkipLeadingZeros(numbers, lowest, level + 1);
  }
}
