/**
 * The highlight cascade of src/kindle-parser.ts on documents laid out as the export writes them: sections
 * with one noteHeading/noteText pair each, bare pairs without sections, and plain `<div>` blocks. On each
 * layout the cascade's functions give one record per written highlight, in document order.
 */
module KindleExtraction {
  import opened Wrappers
  import opened Strings
  import opened Markup
  import opened Patterns
  import opened Types
  import opened Layouts
  import opened KindleSpec

  // ---------------------------------------------------------------------------------------------
  // The markers are unbordered, so their occurrences never overlap

  lemma SectionHeadingUnbordered()
    ensures Unbordered(SECTION_HEADING)
  {
  }

  lemma NoteHeadingUnbordered()
    ensures Unbordered(NOTE_HEADING)
  {
  }

  lemma NoteTextUnbordered()
    ensures Unbordered(NOTE_TEXT.open)
  {
  }

  // ---------------------------------------------------------------------------------------------
  // Sub-method 1 on one fragment

  /** The `noteText` capture of `gap`, the opener, a text without `</div>`, `</div>` and anything after is that
      text, when the gap holds no tag. */
  lemma MatchNoteText(gap: string, text: string, rest: string)
    requires forall i :: 0 <= i < |gap| ==> gap[i] != '<'
    requires !Contains(text, CLOSE_DIV)
    ensures MatchEnclosed(gap + (NOTE_TEXT.open + (text + (CLOSE_DIV + rest))), NOTE_TEXT) == Some(text)
  {
    NoteTextUnbordered();
    CloseDivUnbordered();
    NoLessFree(gap, NOTE_TEXT.open);
    MatchEnclosedAfter(gap, NOTE_TEXT, text, rest);
  }

  /** A fragment after a `noteHeading` marker: a heading without `</div>`, `</div>`, then a remainder whose
      `noteText` capture is a non-empty text, gives the record of the trimmed heading and text. */
  lemma NoteFromFragmentPair(heading: string, rest: string, text: string, section: string)
    requires !Contains(heading, CLOSE_DIV)
    requires MatchEnclosed(rest, NOTE_TEXT) == Some(text) && text != ""
    ensures NoteFromFragment(heading + (CLOSE_DIV + rest), section) == Some(SectionNote(section, Trim(heading), Trim(text)))
  {
    CloseDivUnbordered();
    SplitAt(heading, CLOSE_DIV, rest);
    JoinSplit(rest, CLOSE_DIV);
    assert ([heading] + Split(rest, CLOSE_DIV))[1..] == Split(rest, CLOSE_DIV);
  }

  // ---------------------------------------------------------------------------------------------
  // Tier 1 on section-marked documents

  /** A section as the export writes it: the marker (not part of the layout), a name, `</div>`, leading text, a
      noteHeading block with a heading, a gap, a noteText block with a text, and trailing text. */
  datatype SectionLayout = SectionLayout(name: string, lead: string, heading: string, gap: string, text: string, trail: string)

  /** What follows the heading's `</div>`: the gap, the noteText block and the trailing text. */
  function NoteRest(x: SectionLayout): string {
    x.gap + (NOTE_TEXT.open + (x.text + (CLOSE_DIV + x.trail)))
  }

  /** The fragment after the noteHeading marker. */
  function NoteFragment(x: SectionLayout): string {
    x.heading + (CLOSE_DIV + NoteRest(x))
  }

  /** The section's content: everything after the name's `</div>`. */
  function SectionContentText(x: SectionLayout): string {
    x.lead + (NOTE_HEADING + NoteFragment(x))
  }

  /** The section's text after its marker. */
  function SectionBody(x: SectionLayout): string {
    x.name + (CLOSE_DIV + SectionContentText(x))
  }

  /** A section holding one noteHeading/noteText pair and nothing else that the markers could match: no `</div>`
      in the name, heading or text, no tag in the gap, a non-empty text, no other noteHeading marker and no
      section marker. */
  predicate WellFormedSection(x: SectionLayout) {
    && !Contains(x.name, CLOSE_DIV) && !Contains(x.heading, CLOSE_DIV) && !Contains(x.text, CLOSE_DIV)
    && (forall i :: 0 <= i < |x.gap| ==> x.gap[i] != '<')
    && x.text != ""
    && !Contains(x.lead, NOTE_HEADING) && !Contains(NoteFragment(x), NOTE_HEADING)
    && !Contains(SectionBody(x), SECTION_HEADING)
  }

  /** Every section is well-formed. */
  predicate WellFormedSections(xs: seq<SectionLayout>) {
    xs == [] || (WellFormedSection(xs[0]) && WellFormedSections(xs[1..]))
  }

  /** The record the section's pair should give. */
  function SectionRecord(x: SectionLayout): Highlight {
    SectionNote(Trim(x.name), Trim(x.heading), Trim(x.text))
  }

  /** Splitting the content on the noteHeading marker leaves one fragment after the first piece. */
  lemma HeadingSplitOne(x: SectionLayout)
    requires !Contains(x.lead, NOTE_HEADING) && !Contains(NoteFragment(x), NOTE_HEADING)
    ensures Split(SectionContentText(x), NOTE_HEADING)[1..] == [NoteFragment(x)]
  {
    NoteHeadingUnbordered();
    SplitAt(x.lead, NOTE_HEADING, NoteFragment(x));
    SplitCount(NoteFragment(x), NOTE_HEADING);
  }

  /** The fragment after the marker gives the record of its trimmed heading and text. */
  lemma FragmentNote(x: SectionLayout, section: string)
    requires !Contains(x.heading, CLOSE_DIV) && !Contains(x.text, CLOSE_DIV) && x.text != ""
    requires forall i :: 0 <= i < |x.gap| ==> x.gap[i] != '<'
    ensures NoteFromFragment(NoteFragment(x), section) == Some(SectionNote(section, Trim(x.heading), Trim(x.text)))
  {
    MatchNoteText(x.gap, x.text, x.trail);
    NoteFromFragmentPair(x.heading, NoteRest(x), x.text, section);
  }

  /** Sub-method 1 finds the section's one pair. */
  lemma ByHeadingSplitOne(x: SectionLayout, section: string)
    requires WellFormedSection(x)
    ensures ByHeadingSplit(SectionContentText(x), section) == [SectionNote(section, Trim(x.heading), Trim(x.text))]
  {
    HeadingSplitOne(x);
    FragmentNote(x, section);
    NotesFromOne(NoteFragment(x), section, SectionNote(section, Trim(x.heading), Trim(x.text)));
  }

  lemma NotesFromOne(frag: string, section: string, h: Highlight)
    requires NoteFromFragment(frag, section) == Some(h)
    ensures NotesFromFragments([frag], section) == [h]
  {
    assert [frag][1..] == [];
  }

  /** Sub-method 2 is consulted only when sub-method 1 finds nothing. */
  lemma SectionHighlightsFirst(content: string, section: string)
    requires |ByHeadingSplit(content, section)| > 0
    ensures SectionHighlights(content, section) == ByHeadingSplit(content, section)
  {
  }

  /** A well-formed section gives exactly the record of its pair. */
  lemma SectionHighlightsOne(x: SectionLayout, section: string)
    requires WellFormedSection(x)
    ensures SectionHighlights(SectionContentText(x), section) == [SectionNote(section, Trim(x.heading), Trim(x.text))]
  {
    ByHeadingSplitOne(x, section);
    SectionHighlightsFirst(SectionContentText(x), section);
  }

  /** A section's name and content are read back from its text. */
  lemma SectionParts(x: SectionLayout)
    requires !Contains(x.name, CLOSE_DIV)
    ensures SectionName(SectionBody(x)) == Trim(x.name)
    ensures SectionContent(SectionBody(x)) == SectionContentText(x)
  {
    CloseDivUnbordered();
    SplitAt(x.name, CLOSE_DIV, SectionContentText(x));
    JoinSplit(SectionContentText(x), CLOSE_DIV);
    assert ([x.name] + Split(SectionContentText(x), CLOSE_DIV))[1..] == Split(SectionContentText(x), CLOSE_DIV);
  }

  /** The sections' texts after their markers. */
  function Bodies(xs: seq<SectionLayout>): (r: seq<string>)
    ensures |r| == |xs|
  {
    if xs == [] then [] else [SectionBody(xs[0])] + Bodies(xs[1..])
  }

  /** The sections written one after another, each after its marker. */
  function SectionsText(xs: seq<SectionLayout>): string {
    if xs == [] then "" else SECTION_HEADING + (SectionBody(xs[0]) + SectionsText(xs[1..]))
  }

  /** The records the sections should give: one per section, in order. */
  function SectionRecords(xs: seq<SectionLayout>): (r: seq<Highlight>)
    ensures |r| == |xs|
  {
    if xs == [] then [] else [SectionRecord(xs[0])] + SectionRecords(xs[1..])
  }

  lemma {:induction false} SectionRecordsAt(xs: seq<SectionLayout>)
    ensures forall i :: 0 <= i < |xs| ==> SectionRecords(xs)[i] == SectionRecord(xs[i])
    decreases |xs|
  {
    if xs != [] {
      SectionRecordsAt(xs[1..]);
      var r := SectionRecords(xs);
      assert r == [SectionRecord(xs[0])] + SectionRecords(xs[1..]);
      forall i | 0 < i < |xs| ensures r[i] == SectionRecord(xs[i]) {
        assert r[i] == SectionRecords(xs[1..])[i - 1];
        assert xs[1..][i - 1] == xs[i];
      }
    }
  }

  /** Tier 1 walks the section texts one by one. */
  lemma SectionsHighlightsCons(b: string, bs: seq<string>)
    ensures SectionsHighlights([b] + bs) == SectionHighlights(SectionContent(b), SectionName(b)) + SectionsHighlights(bs)
  {
    assert ([b] + bs)[1..] == bs;
  }

  /** With the section marker present, tier 1 reads the fragments after the first. */
  lemma Tier1Split(html: string)
    requires |Split(html, SECTION_HEADING)| > 1
    ensures Tier1(html) == SectionsHighlights(Split(html, SECTION_HEADING)[1..])
  {
  }

  /** Splitting on the section marker gives the text before the first marker, then each section's text. */
  lemma {:induction false} SplitSections(p: string, xs: seq<SectionLayout>)
    requires !Contains(p, SECTION_HEADING)
    requires WellFormedSections(xs)
    ensures Split(p + SectionsText(xs), SECTION_HEADING) == [p] + Bodies(xs)
    decreases |xs|
  {
    SectionHeadingUnbordered();
    if xs == [] {
      assert p + SectionsText(xs) == p;
      SplitCount(p, SECTION_HEADING);
    } else {
      SplitAt(p, SECTION_HEADING, SectionBody(xs[0]) + SectionsText(xs[1..]));
      SplitSections(SectionBody(xs[0]), xs[1..]);
    }
  }

  /** Every well-formed section gives the record of its pair, attributed to its trimmed name. */
  lemma {:induction false} SectionsHighlightsOf(xs: seq<SectionLayout>)
    requires WellFormedSections(xs)
    ensures SectionsHighlights(Bodies(xs)) == SectionRecords(xs)
    decreases |xs|
  {
    if xs != [] {
      SectionParts(xs[0]);
      SectionHighlightsOne(xs[0], Trim(xs[0].name));
      SectionsHighlightsOf(xs[1..]);
      SectionsHighlightsCons(SectionBody(xs[0]), Bodies(xs[1..]));
    }
  }

  /** Tier 1 on a document of a preamble without the section marker and N &gt; 0 well-formed sections: exactly N
      records, record i carrying section i's trimmed name, heading and text. */
  lemma Tier1Sections(pre: string, xs: seq<SectionLayout>)
    requires |xs| > 0 && !Contains(pre, SECTION_HEADING) && WellFormedSections(xs)
    ensures Tier1(pre + SectionsText(xs)) == SectionRecords(xs)
  {
    SplitSections(pre, xs);
    assert ([pre] + Bodies(xs))[1..] == Bodies(xs);
    Tier1Split(pre + SectionsText(xs));
    SectionsHighlightsOf(xs);
  }

  /** The whole cascade on such a document stops at tier 1: one record per section, in document order, each
      with its section's trimmed name. */
  lemma HighlightsSections(pre: string, xs: seq<SectionLayout>)
    requires |xs| > 0 && !Contains(pre, SECTION_HEADING) && WellFormedSections(xs)
    ensures |Highlights(pre + SectionsText(xs))| == |xs|
    ensures forall i :: 0 <= i < |xs| ==>
      Highlights(pre + SectionsText(xs))[i] == SectionNote(Trim(xs[i].name), Trim(xs[i].heading), Trim(xs[i].text))
  {
    Tier1Sections(pre, xs);
    SectionRecordsAt(xs);
  }

  // ---------------------------------------------------------------------------------------------
  // Tier 2 and sub-method 2 on bare noteHeading/noteText pairs

  /** The uncoloured records tier 2 should give for the pairs. */
  function FallbackRecords(xs: seq<PairLayout>): (r: seq<Highlight>)
    ensures |r| == |xs|
  {
    if xs == [] then []
    else [Highlight("", StripHtml(Trim(xs[0].heading)), Trim(xs[0].text), Some(DEFAULT_COLOR))] + FallbackRecords(xs[1..])
  }

  /** The records sub-method 2 should give for the pairs in a section. */
  function PairRecords(xs: seq<PairLayout>, section: string): (r: seq<Highlight>)
    ensures |r| == |xs|
  {
    if xs == [] then [] else [SectionNote(section, Trim(xs[0].heading), Trim(xs[0].text))] + PairRecords(xs[1..], section)
  }

  lemma FallbackNotesCons(m: Match, ms: seq<Match>)
    ensures FallbackNotes([m] + ms) == [Highlight("", StripHtml(Trim(m.group1)), Trim(m.group2), Some(DEFAULT_COLOR))] + FallbackNotes(ms)
  {
    assert ([m] + ms)[1..] == ms;
  }

  lemma NotesFromMatchesCons(m: Match, ms: seq<Match>, section: string)
    ensures NotesFromMatches([m] + ms, section) == [SectionNote(section, Trim(m.group1), Trim(m.group2))] + NotesFromMatches(ms, section)
  {
    assert ([m] + ms)[1..] == ms;
  }

  lemma {:induction false} FallbackOfPairs(xs: seq<PairLayout>, from: nat)
    ensures FallbackNotes(PairMatches(xs, from)) == FallbackRecords(xs)
    decreases |xs|
  {
    if xs != [] {
      var e := from + |xs[0].lead| + |PairText(xs[0].heading, xs[0].gap, xs[0].text)|;
      assert PairMatches(xs, from) == [Match(xs[0].heading, xs[0].text, e)] + PairMatches(xs[1..], e);
      FallbackOfPairs(xs[1..], e);
      FallbackNotesCons(Match(xs[0].heading, xs[0].text, e), PairMatches(xs[1..], e));
    }
  }

  lemma {:induction false} NotesOfPairs(xs: seq<PairLayout>, from: nat, section: string)
    ensures NotesFromMatches(PairMatches(xs, from), section) == PairRecords(xs, section)
    decreases |xs|
  {
    if xs != [] {
      var e := from + |xs[0].lead| + |PairText(xs[0].heading, xs[0].gap, xs[0].text)|;
      assert PairMatches(xs, from) == [Match(xs[0].heading, xs[0].text, e)] + PairMatches(xs[1..], e);
      NotesOfPairs(xs[1..], e, section);
      NotesFromMatchesCons(Match(xs[0].heading, xs[0].text, e), PairMatches(xs[1..], e), section);
    }
  }

  /** Tier 2 on well-formed pairs followed by text without a tag: one uncoloured record per pair, in order, with
      the pair's trimmed, tag-stripped heading and trimmed text. */
  lemma Tier2Pairs(xs: seq<PairLayout>, trail: string)
    requires forall i :: 0 <= i < |xs| ==> WellFormedPair(xs[i])
    requires forall i :: 0 <= i < |trail| ==> trail[i] != '<'
    ensures Tier2(PairsText(xs) + trail) == FallbackRecords(xs)
  {
    AllPairs(xs, trail, Loose);
    FallbackOfPairs(xs, 0);
  }

  /** Sub-method 2 on the same layout: one coloured record per pair, attributed to the section. */
  lemma ByPairRegexPairs(xs: seq<PairLayout>, trail: string, section: string)
    requires forall i :: 0 <= i < |xs| ==> WellFormedPair(xs[i])
    requires forall i :: 0 <= i < |trail| ==> trail[i] != '<'
    ensures ByPairRegex(PairsText(xs) + trail, section) == PairRecords(xs, section)
  {
    AllPairs(xs, trail, Exact);
    NotesOfPairs(xs, 0, section);
  }

  // ---------------------------------------------------------------------------------------------
  // Tier 3 on plain `<div>` blocks

  /** The trimmed contents of the blocks, in order. */
  function BlockTrims(ys: seq<BlockLayout>): (r: seq<string>)
    ensures |r| == |ys|
  {
    if ys == [] then [] else [Trim(ys[0].content)] + BlockTrims(ys[1..])
  }

  lemma DivTextsCons(m: Match, ms: seq<Match>)
    ensures DivTexts([m] + ms) == [Trim(m.group1)] + DivTexts(ms)
  {
    assert ([m] + ms)[1..] == ms;
  }

  lemma {:induction false} DivTextsOfBlocks(ys: seq<BlockLayout>, from: nat)
    ensures DivTexts(BlockMatches(ys, from)) == BlockTrims(ys)
    decreases |ys|
  {
    if ys != [] {
      var e := from + |ys[0].lead| + |DivText(ys[0].content)|;
      assert BlockMatches(ys, from) == [Match(ys[0].content, "", e)] + BlockMatches(ys[1..], e);
      DivTextsOfBlocks(ys[1..], e);
      DivTextsCons(Match(ys[0].content, "", e), BlockMatches(ys[1..], e));
    }
  }

  /** The block texts tier 3 collects from well-formed blocks followed by text without a tag: each block's
      trimmed content, in order. */
  lemma DivBlocksLayout(ys: seq<BlockLayout>, trail: string)
    requires forall i :: 0 <= i < |ys| ==> WellFormedBlock(ys[i])
    requires forall i :: 0 <= i < |trail| ==> trail[i] != '<'
    ensures DivBlocks(BlocksText(ys) + trail) == BlockTrims(ys)
  {
    AllBlocks(ys, trail);
    DivTextsOfBlocks(ys, 0);
  }

  /** The tier-3 pairing from cursor `j + i` is the pairing of the blocks from `j` on, from cursor `i`. */
  lemma {:induction false} AdjacentPairsShift(bs: seq<string>, j: nat, i: nat)
    requires j <= |bs|
    ensures AdjacentPairs(bs, j + i) == AdjacentPairs(bs[j..], i)
    decreases |bs| - j - i
  {
    if j + i + 1 < |bs| {
      assert bs[j..][i] == bs[j + i] && bs[j..][i + 1] == bs[j + i + 1];
      AdjacentPairsShift(bs, j, i + 1);
      AdjacentPairsShift(bs, j, i + 2);
    }
  }

  /** An accepted pair at the cursor is a record, and the pairing goes on after both blocks. */
  lemma AdjacentPairsAccept(bs: seq<string>, i: nat)
    requires i + 1 < |bs| && Accept(bs[i], bs[i + 1])
    ensures AdjacentPairs(bs, i) == [Highlight("", bs[i], bs[i + 1], Some(DEFAULT_COLOR))] + AdjacentPairs(bs[i + 2..], 0)
  {
    AdjacentPairsShift(bs, i + 2, 0);
  }

  /** A heading block and a text block, each after text without a tag. */
  datatype BlockPair = BlockPair(headingLead: string, heading: string, textLead: string, text: string)

  function PairBlocks(ps: seq<BlockPair>): (r: seq<BlockLayout>)
    ensures |r| == 2 * |ps|
  {
    if ps == [] then []
    else [BlockLayout(ps[0].headingLead, ps[0].heading), BlockLayout(ps[0].textLead, ps[0].text)] + PairBlocks(ps[1..])
  }

  /** Every pair is tag-free and passes the tier-3 test: a trimmed heading over 5 and a trimmed text over
      10 characters. */
  predicate PlausiblePairs(ps: seq<BlockPair>) {
    ps == [] ||
    (&& WellFormedBlock(BlockLayout(ps[0].headingLead, ps[0].heading))
     && WellFormedBlock(BlockLayout(ps[0].textLead, ps[0].text))
     && |Trim(ps[0].heading)| > 5 && |Trim(ps[0].text)| > 10
     && PlausiblePairs(ps[1..]))
  }

  /** The records tier 3 should give: one per pair, uncoloured. */
  function BlockRecords(ps: seq<BlockPair>): (r: seq<Highlight>)
    ensures |r| == |ps|
  {
    if ps == [] then []
    else [Highlight("", Trim(ps[0].heading), Trim(ps[0].text), Some(DEFAULT_COLOR))] + BlockRecords(ps[1..])
  }

  /** Trimming keeps a text free of `<`. */
  lemma TrimNoLess(s: string)
    requires forall i :: 0 <= i < |s| ==> s[i] != '<'
    ensures '<' !in Trim(s)
  {
    var b, e :| 0 <= b <= e <= |s| && Trim(s) == s[b..e];
    assert forall i :: 0 <= i < e - b ==> s[b..e][i] == s[b + i];
  }

  lemma {:induction false} PairBlocksWellFormed(ps: seq<BlockPair>)
    requires PlausiblePairs(ps)
    ensures forall i :: 0 <= i < |PairBlocks(ps)| ==> WellFormedBlock(PairBlocks(ps)[i])
    decreases |ps|
  {
    if ps != [] {
      PairBlocksWellFormed(ps[1..]);
      forall i | 2 <= i < |PairBlocks(ps)| ensures PairBlocks(ps)[i] == PairBlocks(ps[1..])[i - 2] {
      }
    }
  }

  lemma BlockTrimsPair(a: BlockLayout, b: BlockLayout, rest: seq<BlockLayout>)
    ensures BlockTrims([a, b] + rest) == [Trim(a.content), Trim(b.content)] + BlockTrims(rest)
  {
    assert ([a, b] + rest)[1..] == [b] + rest;
    assert ([b] + rest)[1..] == rest;
  }

  /** The tier-3 pairing over the blocks of plausible pairs accepts every pair. */
  lemma {:induction false} AdjacentPairsOfPairs(ps: seq<BlockPair>)
    requires PlausiblePairs(ps)
    ensures AdjacentPairs(BlockTrims(PairBlocks(ps)), 0) == BlockRecords(ps)
    decreases |ps|
  {
    if ps != [] {
      var p := ps[0];
      BlockTrimsPair(BlockLayout(p.headingLead, p.heading), BlockLayout(p.textLead, p.text), PairBlocks(ps[1..]));
      TrimNoLess(p.heading);
      TrimNoLess(p.text);
      AdjacentPairsAccept(BlockTrims(PairBlocks(ps)), 0);
      assert BlockTrims(PairBlocks(ps))[2..] == BlockTrims(PairBlocks(ps[1..]));
      AdjacentPairsOfPairs(ps[1..]);
    }
  }

  /** Tier 3 on heading/text block pairs followed by text without a tag: one uncoloured record per pair, in
      order, from the trimmed block contents. */
  lemma Tier3Pairs(ps: seq<BlockPair>, trail: string)
    requires PlausiblePairs(ps)
    requires forall i :: 0 <= i < |trail| ==> trail[i] != '<'
    ensures Tier3(BlocksText(PairBlocks(ps)) + trail) == BlockRecords(ps)
  {
    PairBlocksWellFormed(ps);
    DivBlocksLayout(PairBlocks(ps), trail);
    AdjacentPairsOfPairs(ps);
  }

  // ---------------------------------------------------------------------------------------------
  // Documents of plain blocks fall through to tier 3

  /** With no class-carrying `div` tag there is no section marker, no noteHeading marker and no pair match:
      tier 1 finds nothing. */
  lemma PlainTier1(s: string)
    requires PlainDivs(s)
    ensures Tier1(s) == []
  {
    var sh := SECTION_HEADING;
    var nh := NOTE_HEADING;
    assert sh[1] == 'd' && sh[4] == ' ' && nh[1] == 'd' && nh[4] == ' ';
    PlainDivsNoClass(s, sh);
    PlainDivsNoClass(s, nh);
    SplitCount(s, sh);
    SplitCount(s, nh);
    assert Split(s, nh)[1..] == [];
    PlainDivsNoPair(s, Exact, 0);
  }

  /** Nor does the loose pair regex of tier 2 find anything. */
  lemma PlainTier2(s: string)
    requires PlainDivs(s)
    ensures Tier2(s) == []
  {
    PlainDivsNoPair(s, Loose, 0);
  }

  /** So the cascade's answer on such a document is tier 3's. */
  lemma HighlightsPlain(s: string)
    requires PlainDivs(s)
    ensures Highlights(s) == Tier3(s)
  {
    PlainTier1(s);
    PlainTier2(s);
  }

  /** A document of N plausible heading/text block pairs gives N uncoloured records, in order. */
  lemma HighlightsBlockPairs(ps: seq<BlockPair>, trail: string)
    requires PlausiblePairs(ps)
    requires forall i :: 0 <= i < |trail| ==> trail[i] != '<'
    ensures Highlights(BlocksText(PairBlocks(ps)) + trail) == BlockRecords(ps)
  {
    PairBlocksWellFormed(ps);
    PlainDivsBlocks(PairBlocks(ps), trail);
    HighlightsPlain(BlocksText(PairBlocks(ps)) + trail);
    Tier3Pairs(ps, trail);
  }

  /** Two plain blocks, the first over 5 and the second over 10 characters once trimmed, neither with a `<`,
      give exactly one highlight built from them. */
  lemma HighlightsTwoBlocks(la: string, a: string, lb: string, b: string)
    requires forall i :: 0 <= i < |la| ==> la[i] != '<'
    requires forall i :: 0 <= i < |a| ==> a[i] != '<'
    requires forall i :: 0 <= i < |lb| ==> lb[i] != '<'
    requires forall i :: 0 <= i < |b| ==> b[i] != '<'
    requires |Trim(a)| > 5 && |Trim(b)| > 10
    ensures Highlights(la + (DivText(a) + (lb + DivText(b)))) == [Highlight("", Trim(a), Trim(b), Some(DEFAULT_COLOR))]
  {
    var ps := [BlockPair(la, a, lb, b)];
    assert ps[1..] == [];
    TwoBlocksText(ps);
    HighlightsBlockPairs(ps, "");
    assert BlocksText(PairBlocks(ps)) + "" == BlocksText(PairBlocks(ps));
  }

  lemma TwoBlocksText(ps: seq<BlockPair>)
    requires |ps| == 1
    ensures BlocksText(PairBlocks(ps)) == ps[0].headingLead + (DivText(ps[0].heading) + (ps[0].textLead + DivText(ps[0].text)))
  {
    var ys := PairBlocks(ps);
    assert ps[1..] == [];
    assert ys == [BlockLayout(ps[0].headingLead, ps[0].heading), BlockLayout(ps[0].textLead, ps[0].text)];
    assert ys[1..][1..] == [];
    assert BlocksText(ys[1..]) == ps[0].textLead + (DivText(ps[0].text) + "");
    assert DivText(ps[0].text) + "" == DivText(ps[0].text);
    assert BlocksText(ys) == ps[0].headingLead + (DivText(ps[0].heading) + BlocksText(ys[1..]));
  }

  // ---------------------------------------------------------------------------------------------
  // A document with a title and authors but no notes

  /** Two class-carrying blocks, `<div class="c1">a</div><div class="c2">b</div>`. */
  function ClassDivsText(c1: string, a: string, c2: string, b: string): (r: string)
    ensures |r| == |c1| + |a| + |c2| + |b| + 40
  {
    DivTag(c1) + (a + (CLOSE_DIV + (DivTag(c2) + (b + CLOSE_DIV))))
  }

  /** The export's `bookTitle` and `authors` divs with nothing after them. */
  function NotelessText(title: string, authors: string): string {
    ClassDivsText("bookTitle", title, "authors", authors)
  }

  /** Text free of both tag brackets. */
  predicate Bare(x: string) {
    forall i :: 0 <= i < |x| ==> x[i] != '<' && x[i] != '>'
  }

  /** A class name short enough that its attribute cannot hold `class="noteHeading"`, free of tag brackets,
      and starting with neither the `s` of sectionHeading nor the `n` of noteHeading. */
  predicate ShortClass(cls: string) {
    0 < |cls| < 10 && Bare(cls) && cls[0] != 's' && cls[0] != 'n'
  }

  /** Character `k` of a piece `s[lo..hi] == t` is `t[k - lo]`. */
  lemma PieceAt(s: string, lo: nat, hi: nat, t: string, k: nat)
    requires lo <= k < hi <= |s| && s[lo..hi] == t
    ensures s[k] == t[k - lo]
  {
    assert s[lo..hi][k - lo] == s[k];
  }

  /** A pattern does not occur at `k` if the text differs from it at offset `i`. */
  lemma NotStartsAtOffset(s: string, pat: string, k: nat, i: nat)
    requires i < |pat| && (k + i < |s| ==> s[k + i] != pat[i])
    ensures !StartsAt(s, pat, k)
  {
    if k + |pat| <= |s| {
      assert s[k..k + |pat|][i] == s[k + i];
    }
  }

  /** Where the six parts of the document lie: the second opener starts at `p`, and the closers are at `c`
      and `d`. */
  lemma ClassDivsParts(c1: string, a: string, c2: string, b: string) returns (c: nat, p: nat, q: nat, d: nat)
    ensures var s := ClassDivsText(c1, a, c2, b);
      && c == |c1| + 14 + |a| && p == c + 6 && q == p + |c2| + 14 && d == q + |b| && |s| == d + 6
      && s[0..|c1| + 14] == DivTag(c1) && s[|c1| + 14..c] == a && s[c..p] == CLOSE_DIV
      && s[p..q] == DivTag(c2) && s[q..d] == b && s[d..d + 6] == CLOSE_DIV
  {
    var s := ClassDivsText(c1, a, c2, b);
    var n := |c1| + 14;
    c, p := n + |a|, n + |a| + 6;
    q, d := p + |c2| + 14, p + |c2| + 14 + |b|;
    SuffixSplit(s, 0, DivTag(c1), a + (CLOSE_DIV + (DivTag(c2) + (b + CLOSE_DIV))));
    SuffixSplit(s, n, a, CLOSE_DIV + (DivTag(c2) + (b + CLOSE_DIV)));
    SuffixSplit(s, c, CLOSE_DIV, DivTag(c2) + (b + CLOSE_DIV));
    SuffixSplit(s, p, DivTag(c2), b + CLOSE_DIV);
    SuffixSplit(s, q, b, CLOSE_DIV);
    assert s[d..d + 6] == s[d..];
  }

  /** An opener `<div class="cls">` at `p`: it starts with `<div`, its class name begins at `p + 12`, it
      holds no other `<`, and its first `>` after `<div` is its last character. */
  lemma TagPiece(s: string, p: nat, cls: string)
    requires |cls| > 0 && Bare(cls)
    requires p + |DivTag(cls)| <= |s| && s[p..p + |DivTag(cls)|] == DivTag(cls)
    ensures StartsAt(s, "<div", p) && s[p + 1] == 'd' && s[p + 12] == cls[0]
    ensures forall k :: p < k < p + |DivTag(cls)| ==> s[k] != '<'
    ensures s[p + |cls| + 13] == '>' && forall k :: p + 4 <= k < p + |cls| + 13 ==> s[k] != '>'
  {
    var t := DivTag(cls);
    var a := ClassAttr(cls);
    assert t == "<div" + ((" " + a) + ">");
    ClassAttrChars(cls, '>');
    ClassAttrChars(cls, '<');
    assert s[p..p + 4] == t[..4];
    PieceAt(s, p, p + |t|, t, p + 1);
    PieceAt(s, p, p + |t|, t, p + 12);
    assert t[12] == a[7] == cls[0];
    PieceAt(s, p, p + |t|, t, p + |cls| + 13);
    forall k | p < k < p + |t| ensures s[k] != '<' && (k < p + |cls| + 13 ==> s[k] != '>') {
      PieceAt(s, p, p + |t|, t, k);
      if p + 4 < k < p + |t| - 1 {
        assert t[k - p] == a[k - p - 5];
      }
    }
  }

  /** A closer `</div>` at `c`. */
  lemma ClosePiece(s: string, c: nat)
    requires c + 6 <= |s| && s[c..c + 6] == CLOSE_DIV
    ensures StartsAt(s, CLOSE_DIV, c) && s[c + 1] == '/'
    ensures forall k :: c < k < c + 6 ==> s[k] != '<'
  {
    forall k | c < k < c + 6 ensures s[k] != '<' {
      PieceAt(s, c, c + 6, CLOSE_DIV, k);
    }
    PieceAt(s, c, c + 6, CLOSE_DIV, c + 1);
  }

  /** A piece `s[lo..hi] == x` of bare text holds no `<`. */
  lemma BarePiece(s: string, lo: nat, hi: nat, x: string)
    requires lo <= hi <= |s| && s[lo..hi] == x && Bare(x)
    ensures forall k :: lo <= k < hi ==> s[k] != '<'
  {
    forall k | lo <= k < hi ensures s[k] != '<' {
      PieceAt(s, lo, hi, x, k);
    }
  }

  /** The facts about each tag that the scans below rely on: the document's only `<` are the two openers,
      at 0 and `p`, and the two closers, at `c` and `d`. */
  lemma ClassDivsTags(c1: string, a: string, c2: string, b: string) returns (c: nat, p: nat, q: nat, d: nat)
    requires ShortClass(c1) && ShortClass(c2) && Bare(a) && Bare(b)
    ensures var s := ClassDivsText(c1, a, c2, b);
      && c == |c1| + 14 + |a| && p == c + 6 && q == p + |c2| + 14 && d == q + |b| && |s| == d + 6
      && (forall k :: 0 <= k < |s| && s[k] == '<' ==> k == 0 || k == c || k == p || k == d)
      && s[|c1| + 14..c] == a && s[q..d] == b
      && StartsAt(s, "<div", 0) && s[1] == 'd' && s[12] == c1[0]
      && s[|c1| + 13] == '>' && (forall k :: 4 <= k < |c1| + 13 ==> s[k] != '>')
      && StartsAt(s, "<div", p) && s[p + 1] == 'd' && s[p + 12] == c2[0]
      && s[p + |c2| + 13] == '>' && (forall k :: p + 4 <= k < p + |c2| + 13 ==> s[k] != '>')
      && StartsAt(s, CLOSE_DIV, c) && s[c + 1] == '/' && StartsAt(s, CLOSE_DIV, d) && s[d + 1] == '/'
  {
    var s := ClassDivsText(c1, a, c2, b);
    c, p, q, d := ClassDivsParts(c1, a, c2, b);
    TagPiece(s, 0, c1);
    TagPiece(s, p, c2);
    ClosePiece(s, c);
    ClosePiece(s, d);
    BarePiece(s, |c1| + 14, c, a);
    BarePiece(s, q, d, b);
  }

  /** A `div` marker whose class starts differently from both classes occurs nowhere in the document. */
  lemma ClassDivsNoMarker(c1: string, a: string, c2: string, b: string, marker: string)
    requires ShortClass(c1) && ShortClass(c2) && Bare(a) && Bare(b)
    requires |marker| > 12 && marker[0] == '<' && marker[1] == 'd' && marker[12] != c1[0] && marker[12] != c2[0]
    ensures !Contains(ClassDivsText(c1, a, c2, b), marker)
  {
    var s := ClassDivsText(c1, a, c2, b);
    var c, p, q, d := ClassDivsTags(c1, a, c2, b);
    forall k | 0 <= k ensures !StartsAt(s, marker, k) {
      if k < |s| && s[k] == '<' {
        if k == 0 || k == p {
          NotStartsAtOffset(s, marker, k, 12);
        } else {
          NotStartsAtOffset(s, marker, k, 1);
        }
      } else {
        NotStartsAtHead(s, marker, k);
      }
    }
    FindFromAbsent(s, marker, 0);
  }

  /** Neither pair regex matches at an opener of a short class other than noteHeading: the exact tag differs
      at the class name, and a loose opener needs `class="noteHeading"` inside the tag, which is too short to
      hold it. */
  lemma OpenerNoPair(s: string, p: nat, cls: string, style: TagStyle)
    requires |cls| < 10 && StartsAt(s, "<div", p) && p + 12 < |s| && s[p + 12] != 'n'
    requires p + |cls| + 13 < |s| && s[p + |cls| + 13] == '>' && forall k :: p + 4 <= k < p + |cls| + 13 ==> s[k] != '>'
    ensures AttemptAt(NotePair(style), s, p).None?
  {
    var nh := DivTag("noteHeading");
    assert nh[12] == 'n';
    NotStartsAtOffset(s, nh, p, 12);
    var g := p + |cls| + 13;
    OpenDivLoose(s, p, "noteHeading", g);
    assert |s[p + 4..g]| < |ClassAttr("noteHeading")|;
    assert FindFrom(s[p + 4..g], ClassAttr("noteHeading"), 0).None?;
  }

  /** Nor at a closer, nor anywhere a `<` does not start `<d`. */
  lemma NonOpenerNoPair(s: string, k: nat, style: TagStyle)
    requires k + 1 < |s| ==> s[k + 1] != 'd'
    ensures AttemptAt(NotePair(style), s, k).None?
  {
    var nh := DivTag("noteHeading");
    assert nh[1] == 'd';
    NotStartsAtOffset(s, nh, k, 1);
    NotStartsAtOffset(s, "<div", k, 1);
  }

  /** Neither pair regex matches: no tag of the document is a noteHeading opener, exact or loose. */
  lemma ClassDivsNoPair(c1: string, a: string, c2: string, b: string, style: TagStyle)
    requires ShortClass(c1) && ShortClass(c2) && Bare(a) && Bare(b)
    ensures Next(NotePair(style), ClassDivsText(c1, a, c2, b), 0).None?
  {
    var s := ClassDivsText(c1, a, c2, b);
    var c, p, q, d := ClassDivsTags(c1, a, c2, b);
    forall k | 0 <= k <= |s| ensures AttemptAt(NotePair(style), s, k).None? {
      if k == 0 {
        OpenerNoPair(s, 0, c1, style);
      } else if k == p {
        OpenerNoPair(s, p, c2, style);
      } else if k < |s| && s[k] == '<' {
        NonOpenerNoPair(s, k, style);
      } else {
        AttemptNoTag(NotePair(style), s, k);
      }
    }
    NextNone(NotePair(style), s, 0);
  }

  /** `exec` of the `div` regex from an opener at `p` whose `>` is at `g`, with bare content up to a closer at
      `c`, captures that content. */
  lemma ClassDivMatch(s: string, p: nat, g: nat, c: nat, x: string)
    requires StartsAt(s, "<div", p) && p + 4 <= g < |s| && s[g] == '>' && forall k :: p + 4 <= k < g ==> s[k] != '>'
    requires g < c && StartsAt(s, CLOSE_DIV, c) && s[g + 1..c] == x && Bare(x)
    ensures Next(DivBlock, s, p) == Some(Match(x, "", c + 6))
  {
    CloseDivUnbordered();
    StartsAtChar(s, '>', g);
    forall k | p + 4 <= k < g ensures !StartsAt(s, ">", k) {
      StartsAtChar(s, '>', k);
    }
    FindFromAt(s, ">", p + 4, g);
    forall i | 0 <= i < |x| ensures x[i] != '<' {
    }
    NoLessFree(x, CLOSE_DIV);
    FindAfterFree(s, CLOSE_DIV, g + 1, c);
    AttemptDivAt(s, p, g, c);
    NextAt(DivBlock, s, p, p);
  }

  /** The `div` regex matches the first block at the start of the document. */
  lemma ClassDivsFirst(c1: string, a: string, c2: string, b: string) returns (p: nat)
    requires ShortClass(c1) && ShortClass(c2) && Bare(a) && Bare(b)
    ensures p == |c1| + |a| + 20
    ensures Next(DivBlock, ClassDivsText(c1, a, c2, b), 0) == Some(Match(a, "", p))
  {
    var s := ClassDivsText(c1, a, c2, b);
    var c, q, d;
    c, p, q, d := ClassDivsParts(c1, a, c2, b);
    TagPiece(s, 0, c1);
    ClosePiece(s, c);
    ClassDivMatch(s, 0, |c1| + 13, c, a);
  }

  /** From where the first block ends, it matches the second block, which ends the document. */
  lemma ClassDivsSecond(c1: string, a: string, c2: string, b: string, p: nat)
    requires ShortClass(c1) && ShortClass(c2) && Bare(a) && Bare(b)
    requires p == |c1| + |a| + 20
    ensures Next(DivBlock, ClassDivsText(c1, a, c2, b), p) == Some(Match(b, "", |ClassDivsText(c1, a, c2, b)|))
  {
    var s := ClassDivsText(c1, a, c2, b);
    var c, p', q, d := ClassDivsParts(c1, a, c2, b);
    TagPiece(s, p, c2);
    ClosePiece(s, d);
    ClassDivMatch(s, p, p + |c2| + 13, d, b);
  }

  /** At the end of a text, `exec` finds nothing. */
  lemma NextAtEnd(re: Regex, s: string)
    ensures Next(re, s, |s|).None?
  {
    forall k | |s| <= k <= |s| ensures AttemptAt(re, s, k).None? {
      AttemptNoTag(re, s, k);
    }
    NextNone(re, s, |s|);
  }

  /** Tier 3 collects the two trimmed contents. */
  lemma ClassDivsBlocks(c1: string, a: string, c2: string, b: string)
    requires ShortClass(c1) && ShortClass(c2) && Bare(a) && Bare(b)
    ensures DivBlocks(ClassDivsText(c1, a, c2, b)) == [Trim(a), Trim(b)]
  {
    var s := ClassDivsText(c1, a, c2, b);
    var p := ClassDivsFirst(c1, a, c2, b);
    ClassDivsSecond(c1, a, c2, b, p);
    NextAtEnd(DivBlock, s);
    var m1, m2 := Match(a, "", p), Match(b, "", |s|);
    AllFromStep(DivBlock, s, 0, m1);
    AllFromStep(DivBlock, s, p, m2);
    assert AllFrom(DivBlock, s, |s|) == [];
    assert AllFrom(DivBlock, s, 0) == [m1] + ([m2] + []);
    DivTextsCons(m1, [m2] + []);
    DivTextsCons(m2, []);
  }

  /** Two blocks of short classes other than sectionHeading and noteHeading, with bare contents over 5 and 10
      characters once trimmed: tiers 1 and 2 find nothing, and tier 3 makes one highlight of the pair. */
  lemma HighlightsClassDivs(c1: string, a: string, c2: string, b: string)
    requires ShortClass(c1) && ShortClass(c2) && Bare(a) && Bare(b)
    requires |Trim(a)| > 5 && |Trim(b)| > 10
    ensures Highlights(ClassDivsText(c1, a, c2, b)) == [Highlight("", Trim(a), Trim(b), Some(DEFAULT_COLOR))]
  {
    var s := ClassDivsText(c1, a, c2, b);
    ClassDivsTier1(c1, a, c2, b);
    ClassDivsNoPair(c1, a, c2, b, Loose);
    assert Tier2(s) == [];
    ClassDivsBlocks(c1, a, c2, b);
    TrimNoLess(a);
    TrimNoLess(b);
    assert Accept(Trim(a), Trim(b));
    assert AdjacentPairs(DivBlocks(s), 2) == [];
  }

  /** Tier 1 finds neither a section marker nor a noteHeading marker, nor an exact pair. */
  lemma ClassDivsTier1(c1: string, a: string, c2: string, b: string)
    requires ShortClass(c1) && ShortClass(c2) && Bare(a) && Bare(b)
    ensures Tier1(ClassDivsText(c1, a, c2, b)) == []
  {
    var s := ClassDivsText(c1, a, c2, b);
    var sh, nh := SECTION_HEADING, NOTE_HEADING;
    assert sh[0] == '<' && sh[1] == 'd' && sh[12] == 's';
    assert nh[0] == '<' && nh[1] == 'd' && nh[12] == 'n';
    ClassDivsNoMarker(c1, a, c2, b, sh);
    ClassDivsNoMarker(c1, a, c2, b, nh);
    SplitCount(s, sh);
    SplitCount(s, nh);
    assert Split(s, nh)[1..] == [];
    ClassDivsNoPair(c1, a, c2, b, Exact);
  }

  /** An export with a title and authors but no notes does not give an empty highlight list: with a title over
      5 and authors over 10 characters once trimmed, tier 3 pairs them into one highlight, headed by the
      title. */
  lemma HighlightsNoteless(title: string, authors: string)
    requires Bare(title) && Bare(authors)
    requires |Trim(title)| > 5 && |Trim(authors)| > 10
    ensures Highlights(NotelessText(title, authors)) == [Highlight("", Trim(title), Trim(authors), Some(DEFAULT_COLOR))]
  {
    var c1, c2 := "bookTitle", "authors";
    assert |c1| == 9 && c1[0] == 'b' && Bare(c1);
    assert |c2| == 7 && c2[0] == 'a' && Bare(c2);
    HighlightsClassDivs(c1, title, c2, authors);
  }
}
