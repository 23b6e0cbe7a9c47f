/**
 * The loops of src/kindle-parser.ts. They share one highlight buffer the way the source shares one
 * `highlights` array, and each is proved to append exactly what its function in KindleSpec computes.
 */
module KindleParser {
  import opened Wrappers
  import opened Strings
  import opened Markup
  import opened Patterns
  import opened Types
  import opened KindleSpec

  // ---------------------------------------------------------------------------------------------
  // The source's loops

  /** The `highlights` array every extraction step pushes into. */
  class HighlightBuffer {
    var items: seq<Highlight>

    constructor ()
      ensures items == []
    {
      items := [];
    }

    method Push(h: Highlight)
      modifies this
      ensures items == old(items) + [h]
    {
      items := items + [h];
    }
  }

  /** The `for (const pattern of patterns) { … if (match) { …; break; } }` loop: the first pattern that matches. */
  method FirstPatternMatch(patterns: seq<Enclosure>, html: string) returns (r: Option<string>)
    ensures r == FirstMatch(patterns, html)
    ensures r.None? <==> forall i :: 0 <= i < |patterns| ==> MatchEnclosed(html, patterns[i]).None?
  {
    r := None;
    var i := 0;
    while i < |patterns|
      invariant 0 <= i <= |patterns|
      invariant FirstMatch(patterns, html) == FirstMatch(patterns[i..], html)
      invariant forall j :: 0 <= j < i ==> MatchEnclosed(html, patterns[j]).None?
    {
      var m := MatchEnclosed(html, patterns[i]);
      if m.Some? {
        r := m;
        break;
      }
      assert patterns[i..][1..] == patterns[i + 1..];
      i := i + 1;
    }
  }

  /** `parseKindleHighlights`. */
  method ParseKindleHighlights(html: string) returns (book: BookData)
    ensures book == Parse(html)
  {
    var title := UNKNOWN_TITLE;
    var titleMatch := FirstPatternMatch(TITLE_PATTERNS, html);
    if titleMatch.Some? {
      title := Trim(titleMatch.value);
    }
    var authors := None;
    var authorMatch := FirstPatternMatch(AUTHOR_PATTERNS, html);
    if authorMatch.Some? {
      authors := Some(Trim(authorMatch.value));
    }
    var highlights := new HighlightBuffer();
    ExtractHighlightsUsingMultiplePatterns(html, highlights);
    EmptyAppend(Tier1(html));
    if |highlights.items| == 0 {
      ExtractHighlightsFallbackMethod(html, highlights);
      EmptyAppend(Tier2(html));
    }
    Cascade(html);
    book := BookData(title, authors, highlights.items);
  }

  lemma EmptyAppend(s: seq<Highlight>)
    ensures [] + s == s && s + [] == s
  {
  }

  /** The cascade in the shape the buffer builds it. */
  lemma Cascade(html: string)
    ensures Highlights(html)
         == if |Tier1(html)| > 0 then Tier1(html)
            else Tier2(html) + (if |Tier2(html)| == 0 then Tier3(html) else [])
  {
    if |Tier1(html)| == 0 && |Tier2(html)| > 0 {
      assert Tier2(html) + [] == Tier2(html);
    }
  }

  /** `extractHighlightsUsingMultiplePatterns`: tier 1, appended to the buffer. */
  method ExtractHighlightsUsingMultiplePatterns(html: string, highlights: HighlightBuffer)
    modifies highlights
    ensures highlights.items == old(highlights.items) + Tier1(html)
  {
    var sections := Split(html, SECTION_HEADING);
    if |sections| > 1 {
      ghost var done := [];
      EmptyAppend(SectionsHighlights(sections[1..]));
      EmptyAppend(highlights.items);
      var i := 1;
      while i < |sections|
        invariant 1 <= i <= |sections|
        invariant highlights.items == old(highlights.items) + done
        invariant SectionsHighlights(sections[1..]) == done + SectionsHighlights(sections[i..])
      {
        // `sectionParts.length > 0` always holds: a split has at least one piece
        var sectionParts := Split(sections[i], CLOSE_DIV);
        var sectionName := Trim(sectionParts[0]);
        var sectionContent := Join(sectionParts[1..], CLOSE_DIV);
        SectionsStep(sections, i);
        ghost var found := SectionHighlights(sectionContent, sectionName);
        AppendAssoc(done, found, SectionsHighlights(sections[i + 1..]));
        AppendAssoc(old(highlights.items), done, found);
        ExtractHighlightsFromSection(sectionContent, sectionName, highlights);
        done := done + found;
        i := i + 1;
      }
      assert sections[i..] == [];
      EmptyAppend(done);
    } else {
      ExtractHighlightsFromSection(html, "", highlights);
    }
  }

  /** `extractHighlightsFromSection`: run the two sub-methods in order and stop after the first that added something. */
  method ExtractHighlightsFromSection(content: string, section: string, highlights: HighlightBuffer)
    modifies highlights
    ensures highlights.items == old(highlights.items) + SectionHighlights(content, section)
  {
    var k := 0;
    while k < 2
      invariant 0 <= k <= 2
      invariant k < 2 ==> highlights.items == old(highlights.items)
      invariant k == 1 ==> ByHeadingSplit(content, section) == []
      invariant k == 2 ==> highlights.items == old(highlights.items) + SectionHighlights(content, section)
    {
      var initialCount := |highlights.items|;
      if k == 0 {
        ExtractByHeadingSplit(content, section, highlights);
      } else {
        ExtractByPairRegex(content, section, highlights);
      }
      if |highlights.items| > initialCount {
        break;
      }
      k := k + 1;
    }
  }

  /** Sub-method 1 of `extractHighlightsFromSection`. */
  method ExtractByHeadingSplit(content: string, section: string, highlights: HighlightBuffer)
    modifies highlights
    ensures highlights.items == old(highlights.items) + ByHeadingSplit(content, section)
  {
    var parts := Split(content, NOTE_HEADING);
    ghost var done := [];
    EmptyAppend(NotesFromFragments(parts[1..], section));
    EmptyAppend(highlights.items);
    var i := 1;
    while i < |parts|
      invariant 1 <= i <= |parts|
      invariant highlights.items == old(highlights.items) + done
      invariant NotesFromFragments(parts[1..], section) == done + NotesFromFragments(parts[i..], section)
    {
      FragmentsStep(parts, i, section);
      ghost var found := NoteList(NoteFromFragment(parts[i], section));
      AppendAssoc(done, found, NotesFromFragments(parts[i + 1..], section));
      AppendAssoc(old(highlights.items), done, found);
      PushFragmentNote(parts[i], section, highlights);
      done := done + found;
      i := i + 1;
    }
    assert parts[i..] == [];
    EmptyAppend(done);
  }

  /** The body of sub-method 1's loop, on one fragment after a `noteHeading` marker. */
  method PushFragmentNote(frag: string, section: string, highlights: HighlightBuffer)
    modifies highlights
    ensures highlights.items == old(highlights.items) + NoteList(NoteFromFragment(frag, section))
  {
    var headingParts := Split(frag, CLOSE_DIV);
    if |headingParts| > 1 {
      var heading := Trim(headingParts[0]);
      var textMatch := MatchEnclosed(Join(headingParts[1..], CLOSE_DIV), NOTE_TEXT);
      if textMatch.Some? && textMatch.value != "" {
        var text := Trim(textMatch.value);
        var highlightColor := HighlightColor(heading);
        highlights.Push(Highlight(section, StripHtml(heading), text, Some(highlightColor)));
      } else {
        EmptyAppend(highlights.items);
      }
    } else {
      EmptyAppend(highlights.items);
    }
  }

  /** One step of the section loop: section `i` contributes its highlights, then come those after it. */
  lemma SectionsStep(sections: seq<string>, i: nat)
    requires i < |sections|
    ensures SectionsHighlights(sections[i..])
         == SectionHighlights(SectionContent(sections[i]), SectionName(sections[i])) + SectionsHighlights(sections[i + 1..])
  {
    assert sections[i..][1..] == sections[i + 1..];
  }

  /** One step of the fragment loop of sub-method 1. */
  lemma FragmentsStep(parts: seq<string>, i: nat, section: string)
    requires i < |parts|
    ensures NotesFromFragments(parts[i..], section)
         == NoteList(NoteFromFragment(parts[i], section)) + NotesFromFragments(parts[i + 1..], section)
  {
    assert parts[i..][1..] == parts[i + 1..];
  }

  /** One `exec` step: the remaining matches are the next one followed by those after its end. */
  lemma AllFromStep(re: Regex, s: string, from: nat)
    requires Next(re, s, from).Some?
    ensures AllFrom(re, s, from) == [Next(re, s, from).value] + AllFrom(re, s, Next(re, s, from).value.end)
  {
  }

  /** One step of sub-method 2: the next match contributes one note, then come the notes after it. */
  lemma PairStep(content: string, section: string, from: nat, m: Match)
    requires Next(NotePair(Exact), content, from) == Some(m)
    ensures NotesFromMatches(AllFrom(NotePair(Exact), content, from), section)
         == [SectionNote(section, Trim(m.group1), Trim(m.group2))]
          + NotesFromMatches(AllFrom(NotePair(Exact), content, m.end), section)
  {
    var rest := AllFrom(NotePair(Exact), content, m.end);
    AllFromStep(NotePair(Exact), content, from);
    assert ([m] + rest)[1..] == rest;
  }

  /** The loop invariant of sub-method 2 carried over one match. */
  lemma PairInvariantStep(content: string, section: string, from: nat, m: Match, done: seq<Highlight>, h: Highlight)
    requires Next(NotePair(Exact), content, from) == Some(m)
    requires h == SectionNote(section, Trim(m.group1), Trim(m.group2))
    requires ByPairRegex(content, section) == done + NotesFromMatches(AllFrom(NotePair(Exact), content, from), section)
    ensures ByPairRegex(content, section) == (done + [h]) + NotesFromMatches(AllFrom(NotePair(Exact), content, m.end), section)
  {
    PairStep(content, section, from, m);
    AppendAssoc(done, [h], NotesFromMatches(AllFrom(NotePair(Exact), content, m.end), section));
  }

  /** The loop invariant of tier 2 carried over one match. */
  lemma LooseInvariantStep(html: string, from: nat, m: Match, done: seq<Highlight>, h: Highlight)
    requires Next(NotePair(Loose), html, from) == Some(m)
    requires h == Highlight("", StripHtml(Trim(m.group1)), Trim(m.group2), Some(DEFAULT_COLOR))
    requires Tier2(html) == done + FallbackNotes(AllFrom(NotePair(Loose), html, from))
    ensures Tier2(html) == (done + [h]) + FallbackNotes(AllFrom(NotePair(Loose), html, m.end))
  {
    LoosePairStep(html, from, m);
    AppendAssoc(done, [h], FallbackNotes(AllFrom(NotePair(Loose), html, m.end)));
  }

  /** One step of tier 2. */
  lemma LoosePairStep(html: string, from: nat, m: Match)
    requires Next(NotePair(Loose), html, from) == Some(m)
    ensures FallbackNotes(AllFrom(NotePair(Loose), html, from))
         == [Highlight("", StripHtml(Trim(m.group1)), Trim(m.group2), Some(DEFAULT_COLOR))]
          + FallbackNotes(AllFrom(NotePair(Loose), html, m.end))
  {
    var rest := AllFrom(NotePair(Loose), html, m.end);
    AllFromStep(NotePair(Loose), html, from);
    assert ([m] + rest)[1..] == rest;
  }

  /** One step of the tier-3 collection loop. */
  lemma DivStep(html: string, from: nat, m: Match)
    requires Next(DivBlock, html, from) == Some(m)
    ensures DivTexts(AllFrom(DivBlock, html, from)) == [Trim(m.group1)] + DivTexts(AllFrom(DivBlock, html, m.end))
  {
    var rest := AllFrom(DivBlock, html, m.end);
    AllFromStep(DivBlock, html, from);
    assert ([m] + rest)[1..] == rest;
  }

  /** The colour lookup both section sub-methods perform on a trimmed heading. */
  method HighlightColor(heading: string) returns (highlightColor: string)
    ensures highlightColor == ColorOf(heading)
  {
    highlightColor := DEFAULT_COLOR;
    var colorMatch := MatchColor(heading);
    if colorMatch.Some? {
      highlightColor := Trim(colorMatch.value);
    }
  }

  /** Sub-method 2 of `extractHighlightsFromSection`: the `exec` loop of the exact-tag pair regex. */
  method ExtractByPairRegex(content: string, section: string, highlights: HighlightBuffer)
    modifies highlights
    ensures highlights.items == old(highlights.items) + ByPairRegex(content, section)
  {
    ghost var done := [];
    var lastIndex := 0;
    var noteMatch := Next(NotePair(Exact), content, lastIndex);
    assert highlights.items == old(highlights.items) + done;
    assert ByPairRegex(content, section) == done + NotesFromMatches(AllFrom(NotePair(Exact), content, lastIndex), section);
    while noteMatch.Some?
      invariant noteMatch == Next(NotePair(Exact), content, lastIndex)
      invariant highlights.items == old(highlights.items) + done
      invariant ByPairRegex(content, section) == done + NotesFromMatches(AllFrom(NotePair(Exact), content, lastIndex), section)
      decreases |content| - lastIndex
    {
      var m := noteMatch.value;
      var heading := Trim(m.group1);
      var text := Trim(m.group2);
      var highlightColor := HighlightColor(heading);
      var h := Highlight(section, StripHtml(heading), text, Some(highlightColor));
      PairInvariantStep(content, section, lastIndex, m, done, h);
      AppendAssoc(old(highlights.items), done, [h]);
      highlights.Push(h);
      done := done + [h];
      lastIndex := m.end;
      noteMatch := Next(NotePair(Exact), content, lastIndex);
    }
  }

  /** `extractHighlightsFallbackMethod`: tier 2, and tier 3 when the buffer is still empty afterwards. */
  method ExtractHighlightsFallbackMethod(html: string, highlights: HighlightBuffer)
    modifies highlights
    ensures highlights.items == old(highlights.items) + Tier2(html)
      + (if |old(highlights.items)| + |Tier2(html)| == 0 then Tier3(html) else [])
  {
    PushNotePairs(html, highlights);
    if |highlights.items| == 0 {
      var divMatches := CollectDivBlocks(html);
      PushAdjacentPairs(divMatches, highlights);
    }
  }

  /** The tier-2 `exec` loop of `extractHighlightsFallbackMethod`. */
  method PushNotePairs(html: string, highlights: HighlightBuffer)
    modifies highlights
    ensures highlights.items == old(highlights.items) + Tier2(html)
  {
    ghost var done := [];
    var lastIndex := 0;
    var noteMatch := Next(NotePair(Loose), html, lastIndex);
    assert highlights.items == old(highlights.items) + done;
    assert Tier2(html) == done + FallbackNotes(AllFrom(NotePair(Loose), html, lastIndex));
    while noteMatch.Some?
      invariant noteMatch == Next(NotePair(Loose), html, lastIndex)
      invariant highlights.items == old(highlights.items) + done
      invariant Tier2(html) == done + FallbackNotes(AllFrom(NotePair(Loose), html, lastIndex))
      decreases |html| - lastIndex
    {
      var m := noteMatch.value;
      var heading := Trim(m.group1);
      var text := Trim(m.group2);
      var h := Highlight("", StripHtml(heading), text, Some(DEFAULT_COLOR));
      LooseInvariantStep(html, lastIndex, m, done, h);
      AppendAssoc(old(highlights.items), done, [h]);
      highlights.Push(h);
      done := done + [h];
      lastIndex := m.end;
      noteMatch := Next(NotePair(Loose), html, lastIndex);
    }
  }

  /** The tier-3 `exec` loop that collects the trimmed inner text of every `div` match. */
  method CollectDivBlocks(html: string) returns (divMatches: seq<string>)
    ensures divMatches == DivBlocks(html)
  {
    divMatches := [];
    var lastIndex := 0;
    var divMatch := Next(DivBlock, html, lastIndex);
    while divMatch.Some?
      invariant divMatch == Next(DivBlock, html, lastIndex)
      invariant DivBlocks(html) == divMatches + DivTexts(AllFrom(DivBlock, html, lastIndex))
      decreases |html| - lastIndex
    {
      var m := divMatch.value;
      var t := Trim(m.group1);
      DivStep(html, lastIndex, m);
      ghost var rest := DivTexts(AllFrom(DivBlock, html, m.end));
      AppendAssoc(divMatches, [t], rest);
      divMatches := divMatches + [t];
      lastIndex := m.end;
      divMatch := Next(DivBlock, html, lastIndex);
    }
  }

  /** The tier-3 pairing loop, with its manual `i++` on an accepted pair. */
  method PushAdjacentPairs(divMatches: seq<string>, highlights: HighlightBuffer)
    modifies highlights
    ensures highlights.items == old(highlights.items) + AdjacentPairs(divMatches, 0)
  {
    ghost var done := [];
    var i := 0;
    while i < |divMatches| - 1
      invariant 0 <= i <= |divMatches|
      invariant highlights.items == old(highlights.items) + done
      invariant AdjacentPairs(divMatches, 0) == done + AdjacentPairs(divMatches, i)
    {
      var heading := divMatches[i];
      var text := divMatches[i + 1];
      if |heading| > 5 && |text| > 10 && '<' !in heading && '<' !in text {
        var h := Highlight("", heading, text, Some(DEFAULT_COLOR));
        assert AdjacentPairs(divMatches, i) == [h] + AdjacentPairs(divMatches, i + 2);
        AppendAssoc(done, [h], AdjacentPairs(divMatches, i + 2));
        AppendAssoc(old(highlights.items), done, [h]);
        highlights.Push(h);
        done := done + [h];
        i := i + 1;
      }
      i := i + 1;
    }
  }
}
