/** What the rendering of TocRender promises, stated over its specification
    functions. */
module TocProperties {
  import opened Text
  import opened WikiMarkup
  import opened TocRender

  /** The table always starts with the sidebar opening and the heading line
      (Toc.cs:50-51) and ends by closing the three outer containers
      (Toc.cs:122). */
  lemma TocFrame(hs: seq<HPosition>, buildAnchor: AnchorBuilder, stripHtml: HtmlStripper)
    requires |hs| > 0 && ValidHeadings(hs)
    ensures var r := Toc(hs, buildAnchor, stripHtml);
      && |r| >= |TocOpen| + |TocClose|
      && r[..|TocOpen|] == TocOpen
      && r[|r| - |TocClose|..] == TocClose
  {
    var middle := Body(hs, |hs|, buildAnchor, stripHtml) + (if hs[|hs| - 1].level != hs[0].level then DivClose else "");
    AppendAssoc(TocOpen, Body(hs, |hs|, buildAnchor, stripHtml), if hs[|hs| - 1].level != hs[0].level then DivClose else "");
    Enclosed(TocOpen, middle, TocClose);
  }

  lemma Enclosed(a: string, m: string, c: string)
    ensures |a + m + c| >= |a| + |c|
    ensures (a + m + c)[..|a|] == a
    ensures (a + m + c)[|a + m + c| - |c|..] == c
  {
    assert (a + m + c)[..|a|] == a;
    assert (a + m + c)[|a + m + c| - |c|..] == c;
  }

  /** Counting a heading at `level` adds one to its own counter, resets every
      deeper counter and leaves the shallower ones alone (Toc.cs:84-90). This
      restates the definition of Bump level by level, for the reader. */
  lemma BumpEffect(numbers: map<int, nat>, level: int)
    requires WellKeyed(numbers) && ValidLevel(level)
    ensures var r := Bump(numbers, level);
      && r[level] == numbers[level] + 1
      && (forall i :: 1 <= i < level ==> r[i] == numbers[i])
      && (forall i :: level < i <= 5 ==> r[i] == 0)
  {
  }

  /** Independent reading of the counters: how many of the first `n` headings
      are at `level` since the last heading shallower than `level`. */
  function CountSinceShallower(hs: seq<HPosition>, n: nat, level: int): nat
    requires n <= |hs|
  {
    if n == 0 then 0
    else if hs[n - 1].level < level then 0
    else if hs[n - 1].level == level then CountSinceShallower(hs, n - 1, level) + 1
    else CountSinceShallower(hs, n - 1, level)
  }

  /** The counter of each level is the number of headings at that level since
      the last shallower one. */
  lemma {:induction false} NumbersCountSinceShallower(hs: seq<HPosition>, n: nat, level: int)
    requires ValidHeadings(hs) && n <= |hs| && ValidLevel(level)
    ensures NumbersAfter(hs, n)[level] == CountSinceShallower(hs, n, level)
  {
    if n > 0 {
      NumbersCountSinceShallower(hs, n - 1, level);
    }
  }

  /** The section number of heading `i`, as Toc.cs:96-105 builds it. */
  function HeadingNumber(hs: seq<HPosition>, i: nat): seq<nat>
    requires ValidHeadings(hs) && i < |hs|
  {
    SectionNumber(NumbersAfter(hs, i + 1), hs[0].level, hs[i].level)
  }

  /** A heading shallower than the first heading gets no number; any other
      heading gets a number with no leading zero whose last part is its own
      counter, at least 1, and which has at most one part per level from the
      first heading's level down to its own. */
  lemma HeadingNumberShape(hs: seq<HPosition>, i: nat)
    requires ValidHeadings(hs) && i < |hs|
    ensures var sn := HeadingNumber(hs, i);
      && (sn == [] <==> hs[i].level < hs[0].level)
      && (sn != [] ==>
            && sn[0] != 0
            && sn[|sn| - 1] == NumbersAfter(hs, i + 1)[hs[i].level] >= 1
            && |sn| <= hs[i].level - hs[0].level + 1)
  {
    var numbers := NumbersAfter(hs, i + 1);
    var lowest, level := hs[0].level, hs[i].level;
    assert numbers[level] == NumbersAfter(hs, i)[level] + 1;
    var f := FirstNonZero(numbers, lowest, level);
    if lowest <= level {
      assert f <= level;
    }
  }

  /** The shown label can be read back: splitting it at "." gives one decimal
      string per part, and each string's value is that part. */
  lemma SectionLabelRoundTrip(ns: seq<nat>)
    requires |ns| > 0
    ensures Split(SectionLabel(ns), '.') == NumberStrings(ns)
    ensures forall j :: 0 <= j < |ns| ==> DigitsValue(NumberStrings(ns)[j]) == ns[j]
  {
    var parts := NumberStrings(ns);
    forall j | 0 <= j < |parts|
      ensures '.' !in parts[j]
    {
      assert forall k :: 0 <= k < |parts[j]| ==> IsDigit(parts[j][k]);
    }
    SplitJoin(parts, '.');
    forall j | 0 <= j < |ns|
      ensures DigitsValue(parts[j]) == ns[j]
    {
      NatToStringRoundTrip(ns[j]);
    }
  }

  /** A number that starts at its own level has one part. */
  lemma OnePartNumber(numbers: map<int, nat>, level: int)
    requires WellKeyed(numbers) && ValidLevel(level) && numbers[level] != 0
    ensures SectionNumber(numbers, level, level) == [numbers[level]]
  {
  }

  /** A number one level below a non-zero lowest counter has two parts. */
  lemma TwoPartNumber(numbers: map<int, nat>, lowest: int, level: int)
    requires WellKeyed(numbers) && ValidLevel(lowest) && level == lowest + 1 <= 5
    requires numbers[lowest] != 0
    ensures SectionNumber(numbers, lowest, level) == [numbers[lowest], numbers[level]]
  {
    assert FirstNonZero(numbers, lowest, level) == lowest;
    assert Slice(numbers, lowest, lowest) == [numbers[lowest]];
  }

  /** A number two levels below a non-zero lowest counter has three parts,
      whatever the counter in between. */
  lemma ThreePartNumber(numbers: map<int, nat>, lowest: int, level: int)
    requires WellKeyed(numbers) && ValidLevel(lowest) && level == lowest + 2 <= 5
    requires numbers[lowest] != 0
    ensures SectionNumber(numbers, lowest, level) == [numbers[lowest], numbers[lowest + 1], numbers[level]]
  {
    assert FirstNonZero(numbers, lowest, level) == lowest;
    var two := Slice(numbers, lowest, lowest + 1);
    assert two == [numbers[lowest], numbers[lowest + 1]];
    assert Slice(numbers, lowest, level) == two + [numbers[level]];
  }

  /** The label of a one- or two-part number below ten. */
  lemma ShortLabels(a: nat, b: nat)
    requires a < 10 && b < 10
    ensures SectionLabel([a]) == [DigitChar(a)]
    ensures SectionLabel([a, b]) == [DigitChar(a), '.', DigitChar(b)]
    ensures SectionLabel([a, 0, b]) == [DigitChar(a), '.', '0', '.', DigitChar(b)]
  {
    assert [a, 0, b][..2] == [a, 0];
    var parts := [[DigitChar(a)], ['0'], [DigitChar(b)]];
    assert NumberStrings([a, 0, b]) == parts;
    assert parts[..2] == [[DigitChar(a)], ['0']];
    assert Join(".", parts[..2]) == [DigitChar(a), '.', '0'];
    assert NumberStrings([a]) == [[DigitChar(a)]];
    assert [a, b][..1] == [a];
    assert NumberStrings([a, b]) == [[DigitChar(a)], [DigitChar(b)]];
  }

  /** Bump on a written-out counter dictionary. */
  lemma BumpWritten(a: nat, b: nat, c: nat, d: nat, e: nat, level: int)
    requires ValidLevel(level)
    ensures Bump(map[1 := a, 2 := b, 3 := c, 4 := d, 5 := e], level) ==
      map[1 := if level == 1 then a + 1 else a,
          2 := if level < 2 then 0 else if level == 2 then b + 1 else b,
          3 := if level < 3 then 0 else if level == 3 then c + 1 else c,
          4 := if level < 4 then 0 else if level == 4 then d + 1 else d,
          5 := if level < 5 then 0 else e + 1]
  {
  }

  /** One more heading bumps the counters left by the ones before it. */
  lemma NumbersAfterNext(hs: seq<HPosition>, n: nat, a: nat, b: nat, c: nat, d: nat, e: nat)
    requires ValidHeadings(hs) && n < |hs|
    requires NumbersAfter(hs, n) == map[1 := a, 2 := b, 3 := c, 4 := d, 5 := e]
    ensures NumbersAfter(hs, n + 1) == Bump(map[1 := a, 2 := b, 3 := c, 4 := d, 5 := e], hs[n].level)
  {
  }

  /** The headings are at the given levels, in order. */
  predicate AtLevels(hs: seq<HPosition>, levels: seq<int>)
  {
    |hs| == |levels| && forall i :: 0 <= i < |hs| ==> hs[i].level == levels[i]
  }

  lemma SiblingCounters(hs: seq<HPosition>)
    requires AtLevels(hs, [1, 2, 2, 1])
    ensures ValidHeadings(hs)
    ensures NumbersAfter(hs, 1) == map[1 := 1, 2 := 0, 3 := 0, 4 := 0, 5 := 0]
    ensures NumbersAfter(hs, 2) == map[1 := 1, 2 := 1, 3 := 0, 4 := 0, 5 := 0]
    ensures NumbersAfter(hs, 3) == map[1 := 1, 2 := 2, 3 := 0, 4 := 0, 5 := 0]
    ensures NumbersAfter(hs, 4) == map[1 := 2, 2 := 0, 3 := 0, 4 := 0, 5 := 0]
  {
    assert hs[0].level == 1 && hs[1].level == 2 && hs[2].level == 2 && hs[3].level == 1;
    BumpWritten(0, 0, 0, 0, 0, 1);
    NumbersAfterNext(hs, 0, 0, 0, 0, 0, 0);
    BumpWritten(1, 0, 0, 0, 0, 2);
    NumbersAfterNext(hs, 1, 1, 0, 0, 0, 0);
    BumpWritten(1, 1, 0, 0, 0, 2);
    NumbersAfterNext(hs, 2, 1, 1, 0, 0, 0);
    BumpWritten(1, 2, 0, 0, 0, 1);
    NumbersAfterNext(hs, 3, 1, 2, 0, 0, 0);
  }

  /** The section numbers of levels 1, 2, 2, 1. */
  lemma SiblingNumbers(hs: seq<HPosition>)
    requires AtLevels(hs, [1, 2, 2, 1])
    ensures ValidHeadings(hs)
    ensures HeadingNumber(hs, 0) == [1] && HeadingNumber(hs, 1) == [1, 1]
    ensures HeadingNumber(hs, 2) == [1, 2] && HeadingNumber(hs, 3) == [2]
  {
    SiblingCounters(hs);
    assert hs[0].level == 1 && hs[1].level == 2 && hs[2].level == 2 && hs[3].level == 1;
    OnePartNumber(NumbersAfter(hs, 1), 1);
    TwoPartNumber(NumbersAfter(hs, 2), 1, 2);
    TwoPartNumber(NumbersAfter(hs, 3), 1, 2);
    OnePartNumber(NumbersAfter(hs, 4), 1);
  }

  /** Levels 1, 2, 2, 1 are numbered "1", "1.1", "1.2", "2". */
  lemma SiblingLabels(hs: seq<HPosition>)
    requires AtLevels(hs, [1, 2, 2, 1])
    ensures ValidHeadings(hs)
    ensures SectionLabel(HeadingNumber(hs, 0)) == "1"
    ensures SectionLabel(HeadingNumber(hs, 1)) == "1.1"
    ensures SectionLabel(HeadingNumber(hs, 2)) == "1.2"
    ensures SectionLabel(HeadingNumber(hs, 3)) == "2"
  {
    SiblingNumbers(hs);
    ShortLabels(1, 1);
    ShortLabels(1, 2);
    ShortLabels(2, 0);
  }

  /** The section numbers of levels 1, 3. */
  lemma SkippedLevelNumbers(hs: seq<HPosition>)
    requires AtLevels(hs, [1, 3])
    ensures ValidHeadings(hs)
    ensures HeadingNumber(hs, 0) == [1] && HeadingNumber(hs, 1) == [1, 0, 1]
  {
    assert hs[0].level == 1 && hs[1].level == 3;
    BumpWritten(0, 0, 0, 0, 0, 1);
    NumbersAfterNext(hs, 0, 0, 0, 0, 0, 0);
    BumpWritten(1, 0, 0, 0, 0, 3);
    NumbersAfterNext(hs, 1, 1, 0, 0, 0, 0);
    OnePartNumber(NumbersAfter(hs, 1), 1);
    ThreePartNumber(NumbersAfter(hs, 2), 1, 3);
  }

  /** Levels 1, 3 are numbered "1", "1.0.1": the skipped level keeps its zero. */
  lemma SkippedLevelLabels(hs: seq<HPosition>)
    requires AtLevels(hs, [1, 3])
    ensures ValidHeadings(hs)
    ensures SectionLabel(HeadingNumber(hs, 0)) == "1"
    ensures SectionLabel(HeadingNumber(hs, 1)) == "1.0.1"
  {
    SkippedLevelNumbers(hs);
    ShortLabels(1, 1);
  }

  /** Levels 2, 1 are numbered "1" and "": the second heading is shallower
      than the first, so it gets no number. */
  lemma ShallowerLabels(hs: seq<HPosition>)
    requires AtLevels(hs, [2, 1])
    ensures ValidHeadings(hs)
    ensures SectionLabel(HeadingNumber(hs, 0)) == "1"
    ensures SectionLabel(HeadingNumber(hs, 1)) == ""
  {
    assert hs[0].level == 2 && hs[1].level == 1;
    BumpWritten(0, 0, 0, 0, 0, 2);
    NumbersAfterNext(hs, 0, 0, 0, 0, 0, 0);
    OnePartNumber(NumbersAfter(hs, 1), 2);
    HeadingNumberShape(hs, 1);
    ShortLabels(1, 1);
  }

  // ---------------------------------------------------------------------------
  // Level transitions and indentation containers (Toc.cs:67-81, 119-120)
  // ---------------------------------------------------------------------------

  /** Indentation containers opened when moving from `prev` to `level`. */
  function Opened(prev: int, level: int, lowest: int): nat
  {
    if prev < level && level > lowest then level - prev else 0
  }

  /** Containers closed when moving from `prev` to `level`. */
  function Closed(prev: int, level: int): nat
  {
    if prev > level then prev - level else 0
  }

  /** The tags of a transition, in order: "</p>" when leaving a level deeper
      than the lowest, one "</div>" per level climbed, "<p>" when the climb
      stops above the lowest level, and one indentation container per level
      descended; a heading at the same level emits nothing. This restates the
      definitions of Transition and Jump as one flat sequence of tags. */
  lemma TransitionTags(prev: int, level: int, lowest: int)
    ensures prev == level ==> Transition(prev, level, lowest) == ""
    ensures Transition(prev, level, lowest) ==
      (if prev != level && prev > lowest then ParaClose else "")
      + Repeat(DivClose, Closed(prev, level))
      + (if prev > level && level > lowest then ParaOpen else "")
      + Repeat(IndentOpen, Opened(prev, level, lowest))
  {
    var close := if prev != level && prev > lowest then ParaClose else "";
    var open := if prev > level && level > lowest then ParaOpen else "";
    EmptyAppend(close);
    if prev > level {
      EmptyAppend(close + Repeat(DivClose, prev - level) + open);
      AppendAssoc(close, Repeat(DivClose, prev - level), open);
    } else {
      EmptyAppend(close);
      EmptyAppend(Repeat(IndentOpen, Opened(prev, level, lowest)));
    }
  }

  /** The first heading never emits transition tags: the stack starts at 1,
      and the first heading's level is the lowest level. */
  lemma FirstHeadingNoTags(hs: seq<HPosition>)
    requires |hs| > 0 && ValidHeadings(hs)
    ensures Transition(PrevLevel(hs, 0), hs[0].level, hs[0].level) == ""
  {
    TransitionTags(PrevLevel(hs, 0), hs[0].level, hs[0].level);
    EmptyAppend("");
  }

  /** Indentation containers left open after the first `n` headings, counted
      from the transitions. */
  function OpenContainers(hs: seq<HPosition>, n: nat): int
    requires n <= |hs|
  {
    if n == 0 then 0
    else
      var prev, level := PrevLevel(hs, n - 1), hs[n - 1].level;
      OpenContainers(hs, n - 1) + Opened(prev, level, hs[0].level) - Closed(prev, level)
  }

  /** No heading shallower than the first one. */
  predicate NoneShallower(hs: seq<HPosition>)
    requires |hs| > 0
  {
    forall i :: 0 <= i < |hs| ==> hs[i].level >= hs[0].level
  }

  /** When no heading is shallower than the first, the containers open after
      a heading are exactly one per level between the lowest level and it. */
  lemma {:induction false} OpenContainersTrackLevel(hs: seq<HPosition>, n: nat)
    requires 0 < n <= |hs| && ValidHeadings(hs) && NoneShallower(hs)
    ensures OpenContainers(hs, n) == hs[n - 1].level - hs[0].level
  {
    if n > 1 {
      OpenContainersTrackLevel(hs, n - 1);
    }
  }

  /** The tags are not balanced: after the loop a single "</div>" is added
      when the last heading is deeper than the first (Toc.cs:119-120), so
      every level more than one below the lowest leaves a container open. */
  lemma UnclosedContainers(hs: seq<HPosition>)
    requires |hs| > 0 && ValidHeadings(hs) && NoneShallower(hs)
    ensures var last := hs[|hs| - 1].level;
      OpenContainers(hs, |hs|) - (if last != hs[0].level then 1 else 0)
      == if last == hs[0].level then 0 else last - hs[0].level - 1
  {
    OpenContainersTrackLevel(hs, |hs|);
  }

  /** A row is wrapped in a "tocline" container exactly when its heading is
      at the lowest level (Toc.cs:92-93, 117-118). */
  lemma EntryLineIff(h: HPosition, lowest: int, number: seq<nat>, buildAnchor: AnchorBuilder, stripHtml: HtmlStripper)
    ensures var e := Entry(h, lowest, number, buildAnchor, stripHtml);
      && (|e| >= |LineOpen| && e[..|LineOpen|] == LineOpen <==> h.level == lowest)
      && (|e| >= |DivClose| && e[|e| - |DivClose|..] == DivClose <==> h.level == lowest)
  {
    var line := h.level == lowest;
    var numberText, anchor, shown := SectionLabel(number), buildAnchor(h.text, h.id), StripWikiMarkup(stripHtml(h.text));
    RowStart(line, numberText, anchor, shown);
    RowEnd(line, numberText, anchor, shown);
  }

  lemma RowStart(line: bool, numberText: string, anchor: string, shown: string)
    ensures var e := Row(line, numberText, anchor, shown);
      |e| >= |LineOpen| && e[..|LineOpen|] == LineOpen <==> line
  {
    var p1 := (if line then LineOpen else "") + NumberOpen;
    var p2 := p1 + numberText;
    var p3 := p2 + NumberClose;
    var p4 := p3 + LinkOpen;
    var p5 := p4 + anchor;
    var p6 := p5 + LinkMiddle;
    var p7 := p6 + shown;
    var p8 := p7 + LinkClose;
    var close := if line then DivClose else "";
    var n := |LineOpen|;
    PrefixKept(p7, LinkClose, n);
    PrefixKept(p6, shown, n);
    PrefixKept(p5, LinkMiddle, n);
    PrefixKept(p4, anchor, n);
    PrefixKept(p3, LinkOpen, n);
    PrefixKept(p2, NumberClose, n);
    PrefixKept(p1, numberText, n);
    PrefixKept(p8, close, n);
    if line {
      PrefixKept(LineOpen, NumberOpen, n);
    } else {
      EmptyAppend(NumberOpen);
      assert NumberOpen[1] != LineOpen[1];
    }
  }

  lemma RowEnd(line: bool, numberText: string, anchor: string, shown: string)
    ensures var e := Row(line, numberText, anchor, shown);
      |e| >= |DivClose| && e[|e| - |DivClose|..] == DivClose <==> line
  {
    var p7 := (if line then LineOpen else "") + NumberOpen + numberText + NumberClose + LinkOpen + anchor + LinkMiddle + shown;
    var p8 := p7 + LinkClose;
    if line {
      SuffixKept(p8, DivClose, |DivClose|);
    } else {
      EmptyAppend(p8);
      SuffixKept(p7, LinkClose, |DivClose|);
      assert LinkClose[|LinkClose| - |DivClose|..][0] != DivClose[0];
    }
  }

  lemma PrefixKept(a: string, b: string, n: nat)
    requires n <= |a|
    ensures (a + b)[..n] == a[..n]
  {
  }

  lemma SuffixKept(a: string, b: string, n: nat)
    requires n <= |b|
    ensures (a + b)[|a + b| - n..] == b[|b| - n..]
  {
  }
}
