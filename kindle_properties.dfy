/**
 * What src/kindle-parser.ts promises about its result, proved of the functions in KindleSpec: the
 * first-match cascades for title and authors, how tier 1 cuts the document into sections, the shape of
 * every record each tier produces, and the bounds of the tier-3 pairing.
 */
module KindleProperties {
  import opened Wrappers
  import opened Strings
  import opened Markup
  import opened Patterns
  import opened Types
  import opened KindleSpec

  // ---------------------------------------------------------------------------------------------
  // Title and authors

  /** The cascade gives the capture of pattern `i` when that is the first pattern that matches. */
  lemma {:induction false} FirstMatchAt(ps: seq<Enclosure>, s: string, i: nat)
    requires i < |ps| && MatchEnclosed(s, ps[i]).Some?
    requires forall j :: 0 <= j < i ==> MatchEnclosed(s, ps[j]).None?
    ensures FirstMatch(ps, s) == MatchEnclosed(s, ps[i])
    decreases i
  {
    if i > 0 {
      assert MatchEnclosed(s, ps[0]).None?;
      forall j | 0 <= j < i - 1 ensures MatchEnclosed(s, ps[1..][j]).None? {
        assert ps[1..][j] == ps[j + 1];
      }
      FirstMatchAt(ps[1..], s, i - 1);
    }
  }

  /** The cascade gives nothing exactly when no pattern matches. */
  lemma {:induction false} FirstMatchNone(ps: seq<Enclosure>, s: string)
    ensures FirstMatch(ps, s).None? <==> forall j :: 0 <= j < |ps| ==> MatchEnclosed(s, ps[j]).None?
    decreases |ps|
  {
    if ps != [] {
      FirstMatchNone(ps[1..], s);
      assert forall j :: 0 <= j < |ps| - 1 ==> ps[1..][j] == ps[j + 1];
      if MatchEnclosed(s, ps[0]).None? {
        assert (forall j :: 0 <= j < |ps| ==> MatchEnclosed(s, ps[j]).None?)
          <==> (forall j :: 0 <= j < |ps| - 1 ==> MatchEnclosed(s, ps[1..][j]).None?);
      }
    }
  }

  /** When the `i`-th title pattern is the first to occur, the title is the trimmed text between that
      pattern's first opener and the first closer after it. */
  lemma TitleFromPattern(html: string, i: nat)
    requires i < |TITLE_PATTERNS| && FirstEnclosed(html, TITLE_PATTERNS[i]).Some?
    requires forall j :: 0 <= j < i ==> FirstEnclosed(html, TITLE_PATTERNS[j]).None?
    ensures Title(html) == Trim(FirstEnclosed(html, TITLE_PATTERNS[i]).value)
  {
    forall j | 0 <= j <= i ensures MatchEnclosed(html, TITLE_PATTERNS[j]) == FirstEnclosed(html, TITLE_PATTERNS[j]) {
      MatchEnclosedIsFirst(html, TITLE_PATTERNS[j]);
    }
    FirstMatchAt(TITLE_PATTERNS, html, i);
  }

  /** When no title pattern occurs, the title is the placeholder. */
  lemma TitleDefault(html: string)
    requires forall j :: 0 <= j < |TITLE_PATTERNS| ==> FirstEnclosed(html, TITLE_PATTERNS[j]).None?
    ensures Title(html) == UNKNOWN_TITLE
  {
    forall j | 0 <= j < |TITLE_PATTERNS| ensures MatchEnclosed(html, TITLE_PATTERNS[j]).None? {
      MatchEnclosedIsFirst(html, TITLE_PATTERNS[j]);
    }
    FirstMatchNone(TITLE_PATTERNS, html);
  }

  /** The title can be empty: a `bookTitle` wrapper holding only whitespace wins the cascade and trims to `""`. */
  lemma BlankTitle(html: string)
    requires FirstEnclosed(html, TITLE_PATTERNS[0]).Some?
    requires forall k :: 0 <= k < |FirstEnclosed(html, TITLE_PATTERNS[0]).value| ==> IsSpace(FirstEnclosed(html, TITLE_PATTERNS[0]).value[k])
    ensures Title(html) == ""
  {
    TitleFromPattern(html, 0);
    TrimAllSpace(FirstEnclosed(html, TITLE_PATTERNS[0]).value);
  }

  /** When the `i`-th author pattern is the first to occur, the authors are its trimmed capture. */
  lemma AuthorsFromPattern(html: string, i: nat)
    requires i < |AUTHOR_PATTERNS| && FirstEnclosed(html, AUTHOR_PATTERNS[i]).Some?
    requires forall j :: 0 <= j < i ==> FirstEnclosed(html, AUTHOR_PATTERNS[j]).None?
    ensures Authors(html) == Some(Trim(FirstEnclosed(html, AUTHOR_PATTERNS[i]).value))
  {
    forall j | 0 <= j <= i ensures MatchEnclosed(html, AUTHOR_PATTERNS[j]) == FirstEnclosed(html, AUTHOR_PATTERNS[j]) {
      MatchEnclosedIsFirst(html, AUTHOR_PATTERNS[j]);
    }
    FirstMatchAt(AUTHOR_PATTERNS, html, i);
  }

  /** The authors are absent (not empty) exactly when no author pattern occurs. */
  lemma AuthorsAbsent(html: string)
    ensures Authors(html).None? <==> forall j :: 0 <= j < |AUTHOR_PATTERNS| ==> FirstEnclosed(html, AUTHOR_PATTERNS[j]).None?
  {
    forall j | 0 <= j < |AUTHOR_PATTERNS| ensures MatchEnclosed(html, AUTHOR_PATTERNS[j]) == FirstEnclosed(html, AUTHOR_PATTERNS[j]) {
      MatchEnclosedIsFirst(html, AUTHOR_PATTERNS[j]);
    }
    FirstMatchNone(AUTHOR_PATTERNS, html);
  }

  // ---------------------------------------------------------------------------------------------
  // Tier 1: sections

  /** Without a section marker the whole document is one section named `""`. */
  lemma Tier1NoSections(html: string)
    requires !Contains(html, SECTION_HEADING)
    ensures Tier1(html) == SectionHighlights(html, "")
  {
    SplitCount(html, SECTION_HEADING);
  }

  /** The text before the first section marker contributes nothing: cutting it off changes no highlight. */
  lemma Tier1DropsPreamble(html: string)
    requires Contains(html, SECTION_HEADING)
    ensures Tier1(html) == Tier1(html[FindFrom(html, SECTION_HEADING, 0).value..])
  {
    var i := FindFrom(html, SECTION_HEADING, 0).value;
    SplitDropPrefix(html, SECTION_HEADING);
    SplitCount(html, SECTION_HEADING);
    SplitCount(html[i..], SECTION_HEADING);
  }

  /** A section fragment that contains `</div>` is its raw name, the first `</div>`, and its content; the raw
      name holds no `</div>`, and the section's name is that raw name trimmed. */
  lemma SectionRebuild(frag: string)
    requires Contains(frag, CLOSE_DIV)
    ensures var raw := Split(frag, CLOSE_DIV)[0];
      && SectionName(frag) == Trim(raw)
      && !Contains(raw, CLOSE_DIV)
      && frag == raw + CLOSE_DIV + SectionContent(frag)
  {
    var i := FindFrom(frag, CLOSE_DIV, 0).value;
    SplitAroundFirst(frag, CLOSE_DIV, i);
    SplitPiecesFree(frag, CLOSE_DIV);
    assert frag == frag[..i] + frag[i..i + |CLOSE_DIV|] + frag[i + |CLOSE_DIV|..];
  }

  /** A section fragment without `</div>` is all name and no content. */
  lemma SectionWithoutCloser(frag: string)
    requires !Contains(frag, CLOSE_DIV)
    ensures SectionName(frag) == Trim(frag) && SectionContent(frag) == ""
  {
    SplitCount(frag, CLOSE_DIV);
  }

  // ---------------------------------------------------------------------------------------------
  // Sub-method 1

  /** Sub-method 1 emits at most one record per `noteHeading` fragment. */
  lemma {:induction false} NotesFromFragmentsBound(frags: seq<string>, section: string)
    ensures |NotesFromFragments(frags, section)| <= |frags|
    decreases |frags|
  {
    if frags != [] {
      NotesFromFragmentsBound(frags[1..], section);
    }
  }

  lemma ByHeadingSplitBound(content: string, section: string)
    ensures |ByHeadingSplit(content, section)| <= |Split(content, NOTE_HEADING)| - 1
  {
    NotesFromFragmentsBound(Split(content, NOTE_HEADING)[1..], section);
  }

  /** A fragment yields a record only if it contains `</div>`. */
  lemma FragmentNeedsCloser(frag: string, section: string)
    requires NoteFromFragment(frag, section).Some?
    ensures Contains(frag, CLOSE_DIV)
  {
    SplitCount(frag, CLOSE_DIV);
  }

  /** A non-empty but whitespace-only `noteText` body is kept, as a record with empty text. */
  lemma WhitespaceBodyKept(frag: string, section: string, t: string)
    requires |Split(frag, CLOSE_DIV)| > 1
    requires MatchEnclosed(Join(Split(frag, CLOSE_DIV)[1..], CLOSE_DIV), NOTE_TEXT) == Some(t)
    requires t != "" && forall k :: 0 <= k < |t| ==> IsSpace(t[k])
    ensures NoteFromFragment(frag, section) == Some(SectionNote(section, Trim(Split(frag, CLOSE_DIV)[0]), ""))
  {
    TrimAllSpace(t);
  }

  // ---------------------------------------------------------------------------------------------
  // Colours

  /** Without a `<span class="highlight_` opener there is no colour capture. */
  lemma {:induction false} ColorFromNoOpener(s: string, from: nat)
    requires FindFrom(s, COLOR_OPEN, from).None?
    ensures ColorFrom(s, from).None?
    decreases |s| - from
  {
    if from <= |s| {
      assert !StartsAt(s, COLOR_OPEN, from);
      ColorFromNoOpener(s, from + 1);
    }
  }

  /** A heading without a colour span gets the colour `"default"`. */
  lemma ColorDefault(heading: string)
    requires !Contains(heading, COLOR_OPEN)
    ensures ColorOf(heading) == DEFAULT_COLOR
  {
    ColorFromNoOpener(heading, 0);
  }

  /** A one-line group `c` with no `">` in it, followed by `">`, holds neither a line terminator nor a `">`
      that starts inside it. */
  lemma GroupClean(h: string, q: nat, c: string)
    requires q + |c| + |COLOR_GROUP_END| <= |h|
    requires h[q..q + |c|] == c && h[q + |c|..q + |c| + |COLOR_GROUP_END|] == COLOR_GROUP_END
    requires SingleLine(c) && !Contains(c, COLOR_GROUP_END)
    ensures forall k :: q <= k < q + |c| ==> !IsLineTerminator(h[k]) && !StartsAt(h, COLOR_GROUP_END, k)
  {
    var e := q + |c|;
    forall k | q <= k < e ensures !IsLineTerminator(h[k]) && !StartsAt(h, COLOR_GROUP_END, k) {
      assert h[k] == h[q..e][k - q] == c[k - q];
      if k + |COLOR_GROUP_END| <= e {
        SliceOfSlice(h, q, e, k - q, k - q + |COLOR_GROUP_END|);
        assert !StartsAt(c, COLOR_GROUP_END, k - q);
      } else {
        assert k + 1 == e && COLOR_GROUP_END[0] == '"' && COLOR_GROUP_END[1] == '>';
        assert h[e] == h[e..e + |COLOR_GROUP_END|][0];
        if k + |COLOR_GROUP_END| <= |h| {
          assert h[k..k + |COLOR_GROUP_END|][1] == h[e];
        }
      }
    }
  }

  /** A one-line piece `t` of `h` at `r` holds no line terminator. */
  lemma TailClean(h: string, r: nat, t: string)
    requires r + |t| <= |h| && h[r..r + |t|] == t && SingleLine(t)
    ensures forall k :: r <= k < r + |t| ==> !IsLineTerminator(h[k])
  {
    forall k | r <= k < r + |t| ensures !IsLineTerminator(h[k]) {
      assert h[k] == h[r..r + |t|][k - r] == t[k - r];
    }
  }

  /** A heading whose first `<span class="highlight_` opener is followed by a one-line colour `c` without `">`,
      then `">`, one line of text and `</span>`, gets the colour `c`, trimmed. */
  lemma ColorOfSpan(pre: string, c: string, t: string, post: string)
    requires FindFrom(pre + COLOR_OPEN + c + COLOR_GROUP_END + t + SPAN_CLOSE + post, COLOR_OPEN, 0) == Some(|pre|)
    requires SingleLine(c) && SingleLine(t) && !Contains(c, COLOR_GROUP_END)
    ensures ColorOf(pre + COLOR_OPEN + c + COLOR_GROUP_END + t + SPAN_CLOSE + post) == Trim(c)
  {
    var h := pre + COLOR_OPEN + c + COLOR_GROUP_END + t + SPAN_CLOSE + post;
    var q := |pre| + |COLOR_OPEN|;
    var e := q + |c|;
    var f := e + |COLOR_GROUP_END| + |t|;
    assert h[q..e] == c;
    assert h[e..e + |COLOR_GROUP_END|] == COLOR_GROUP_END;
    assert h[e + |COLOR_GROUP_END|..f] == t;
    assert h[f..f + |SPAN_CLOSE|] == SPAN_CLOSE;
    GroupClean(h, q, c);
    TailClean(h, e + |COLOR_GROUP_END|, t);
    MatchColorFirstSpan(h, |pre|, e, f);
  }

  /** In the test suite's colour example the opener comes first. */
  lemma YellowOpener()
    ensures FindFrom("" + COLOR_OPEN + "yellow" + COLOR_GROUP_END + "Chapter 1" + SPAN_CLOSE + ", Location 123", COLOR_OPEN, 0) == Some(0)
  {
    var h := "" + COLOR_OPEN + "yellow" + COLOR_GROUP_END + "Chapter 1" + SPAN_CLOSE + ", Location 123";
    assert h[..|COLOR_OPEN|] == COLOR_OPEN;
  }

  /** The colour word of the example holds no `">` and is already trimmed. */
  lemma YellowGroup()
    ensures !Contains("yellow", COLOR_GROUP_END) && Trim("yellow") == "yellow"
  {
    forall k | 0 <= k ensures !StartsAt("yellow", COLOR_GROUP_END, k) {
      if k + |COLOR_GROUP_END| <= 6 {
        assert "yellow"[k..k + |COLOR_GROUP_END|][0] == "yellow"[k] != '"';
      }
    }
    FindFromAbsent("yellow", COLOR_GROUP_END, 0);
    assert SkipSpace("yellow", 0) == 0;
    assert SkipSpaceBack("yellow", 0, 6) == 6;
  }

  /** The heading of the colour example in the test suite, `<span class="highlight_yellow">Chapter 1</span>,
      Location 123`, written with the pattern's constants, gets the colour `"yellow"`. */
  lemma ColorYellowExample()
    ensures ColorOf(COLOR_OPEN + "yellow" + COLOR_GROUP_END + "Chapter 1" + SPAN_CLOSE + ", Location 123") == "yellow"
  {
    YellowOpener();
    YellowGroup();
    assert SingleLine("yellow") && SingleLine("Chapter 1");
    assert "" + COLOR_OPEN == COLOR_OPEN;
    ColorOfSpan("", "yellow", "Chapter 1", ", Location 123");
  }

  /** The colour never spans a line: the colour regex has no `s` flag. */
  lemma ColorSingleLine(heading: string)
    ensures SingleLine(ColorOf(heading)) && Trimmed(ColorOf(heading))
  {
    match MatchColor(heading)
    case Some(c) => TrimSingleLine(c);
    case None =>
  }

  // ---------------------------------------------------------------------------------------------
  // The shape of every record

  /** What every record of a tier-1 section satisfies: it carries the section's name, a single-line
      trimmed colour, a heading with no tag left in it, and trimmed text. */
  predicate SectionRecord(h: Highlight, section: string) {
    && h.section == section
    && h.highlightColor.Some? && SingleLine(h.highlightColor.value) && Trimmed(h.highlightColor.value)
    && TagFree(h.heading)
    && Trimmed(h.text)
  }

  lemma SectionNoteShape(section: string, heading: string, text: string)
    ensures SectionRecord(SectionNote(section, heading, Trim(text)), section)
  {
    ColorSingleLine(heading);
    StripLeavesNoTag(heading);
  }

  lemma {:induction false} NotesFromFragmentsShape(frags: seq<string>, section: string)
    ensures forall h :: h in NotesFromFragments(frags, section) ==> SectionRecord(h, section)
    decreases |frags|
  {
    if frags != [] {
      NotesFromFragmentsShape(frags[1..], section);
      match NoteFromFragment(frags[0], section)
      case None =>
      case Some(h) =>
        var parts := Split(frags[0], CLOSE_DIV);
        var t := MatchEnclosed(Join(parts[1..], CLOSE_DIV), NOTE_TEXT).value;
        SectionNoteShape(section, Trim(parts[0]), t);
    }
  }

  lemma {:induction false} NotesFromMatchesShape(ms: seq<Match>, section: string)
    ensures forall h :: h in NotesFromMatches(ms, section) ==> SectionRecord(h, section)
    decreases |ms|
  {
    if ms != [] {
      NotesFromMatchesShape(ms[1..], section);
      SectionNoteShape(section, Trim(ms[0].group1), ms[0].group2);
    }
  }

  /** Every record a section yields, by either sub-method, has the section's shape. */
  lemma SectionHighlightsShape(content: string, section: string)
    ensures forall h :: h in SectionHighlights(content, section) ==> SectionRecord(h, section)
  {
    NotesFromFragmentsShape(Split(content, NOTE_HEADING)[1..], section);
    NotesFromMatchesShape(AllFrom(NotePair(Exact), content, 0), section);
  }

  /** Every tier-1 record is named after one of the fragments that follow a section marker. */
  lemma {:induction false} SectionsHighlightsShape(frags: seq<string>)
    ensures forall h :: h in SectionsHighlights(frags) ==>
      exists k :: 0 <= k < |frags| && SectionRecord(h, SectionName(frags[k]))
    decreases |frags|
  {
    if frags != [] {
      SectionsHighlightsShape(frags[1..]);
      SectionHighlightsShape(SectionContent(frags[0]), SectionName(frags[0]));
      forall h | h in SectionsHighlights(frags)
        ensures exists k :: 0 <= k < |frags| && SectionRecord(h, SectionName(frags[k]))
      {
        if h in SectionHighlights(SectionContent(frags[0]), SectionName(frags[0])) {
          assert SectionRecord(h, SectionName(frags[0]));
        } else {
          assert h in SectionsHighlights(frags[1..]);
          var k :| 0 <= k < |frags[1..]| && SectionRecord(h, SectionName(frags[1..][k]));
          assert frags[1..][k] == frags[k + 1];
        }
      }
    }
  }

  /** What every tier-2 and tier-3 record satisfies: no section, the colour `"default"`, a heading with no
      tag in it, and trimmed text. */
  predicate FallbackRecord(h: Highlight) {
    h.section == "" && h.highlightColor == Some(DEFAULT_COLOR) && TagFree(h.heading) && Trimmed(h.text)
  }

  lemma {:induction false} FallbackNotesShape(ms: seq<Match>)
    ensures forall h :: h in FallbackNotes(ms) ==> FallbackRecord(h)
    decreases |ms|
  {
    if ms != [] {
      FallbackNotesShape(ms[1..]);
      StripLeavesNoTag(Trim(ms[0].group1));
    }
  }

  lemma Tier2Shape(html: string)
    ensures forall h :: h in Tier2(html) ==> FallbackRecord(h)
  {
    FallbackNotesShape(AllFrom(NotePair(Loose), html, 0));
  }

  // ---------------------------------------------------------------------------------------------
  // Tier 3

  lemma {:induction false} DivTextsTrimmed(ms: seq<Match>)
    ensures forall k :: 0 <= k < |DivTexts(ms)| ==> Trimmed(DivTexts(ms)[k])
    decreases |ms|
  {
    if ms != [] {
      DivTextsTrimmed(ms[1..]);
      assert forall k :: 1 <= k < |DivTexts(ms)| ==> DivTexts(ms)[k] == DivTexts(ms[1..])[k - 1];
    }
  }

  /** Text with no `<` has no tag in it. */
  lemma NoLessTagFree(s: string)
    requires '<' !in s
    ensures TagFree(s)
  {
    forall i | 0 <= i < |s| ensures s[i] != '<' {
      assert s[i] in s;
    }
  }

  /** Every tier-3 record is an accepted pair of consecutive blocks at or after the cursor. */
  lemma {:induction false} AdjacentPairsFromBlocks(blocks: seq<string>, i: nat)
    ensures forall h :: h in AdjacentPairs(blocks, i) ==>
      exists j :: i <= j < |blocks| - 1 && Accept(blocks[j], blocks[j + 1])
        && h == Highlight("", blocks[j], blocks[j + 1], Some(DEFAULT_COLOR))
    decreases |blocks| - i
  {
    if i + 1 < |blocks| {
      if Accept(blocks[i], blocks[i + 1]) {
        AdjacentPairsFromBlocks(blocks, i + 2);
      } else {
        AdjacentPairsFromBlocks(blocks, i + 1);
      }
    }
  }

  /** An accepted pair consumes two blocks, so at most half of the blocks from the cursor on become records. */
  lemma {:induction false} AdjacentPairsBound(blocks: seq<string>, i: nat)
    requires i <= |blocks|
    ensures 2 * |AdjacentPairs(blocks, i)| <= |blocks| - i
    decreases |blocks| - i
  {
    if i + 1 < |blocks| {
      if Accept(blocks[i], blocks[i + 1]) {
        AdjacentPairsBound(blocks, i + 2);
      } else {
        AdjacentPairsBound(blocks, i + 1);
      }
    }
  }

  lemma Tier3Bound(html: string)
    ensures 2 * |Tier3(html)| <= |DivBlocks(html)|
  {
    AdjacentPairsBound(DivBlocks(html), 0);
  }

  lemma Tier3Shape(html: string)
    ensures forall h :: h in Tier3(html) ==> FallbackRecord(h) && Accept(h.heading, h.text)
  {
    var blocks := DivBlocks(html);
    AdjacentPairsFromBlocks(blocks, 0);
    DivTextsTrimmed(AllFrom(DivBlock, html, 0));
    forall h | h in Tier3(html) ensures FallbackRecord(h) && Accept(h.heading, h.text) {
      var j :| 0 <= j < |blocks| - 1 && Accept(blocks[j], blocks[j + 1])
        && h == Highlight("", blocks[j], blocks[j + 1], Some(DEFAULT_COLOR));
      NoLessTagFree(blocks[j]);
    }
  }

  // ---------------------------------------------------------------------------------------------
  // The whole parse

  /** Every record of the parse has a colour, a heading with no tag left in it, and trimmed text. */
  lemma ParseShape(html: string)
    ensures forall h :: h in Parse(html).highlights ==>
      h.highlightColor.Some? && TagFree(h.heading) && Trimmed(h.text)
  {
    var sections := Split(html, SECTION_HEADING);
    if |sections| > 1 {
      SectionsHighlightsShape(sections[1..]);
    } else {
      SectionHighlightsShape(html, "");
    }
    Tier2Shape(html);
    Tier3Shape(html);
  }
}
