/**
 * What `parseKindleHighlights` of src/kindle-parser.ts computes: the title and author cascades and the
 * three-tier highlight cascade, one function per step. The source's loops, in module KindleParser, are
 * proved to compute these functions.
 */
module KindleSpec {
  import opened Wrappers
  import opened Strings
  import opened Markup
  import opened Patterns
  import opened Types

  const UNKNOWN_TITLE := "不明なタイトル"
  const DEFAULT_COLOR := "default"
  const SECTION_HEADING := "<div class=\"sectionHeading\">"
  const NOTE_HEADING := "<div class=\"noteHeading\">"
  const NOTE_TEXT := Enclosure("<div class=\"noteText\">", CLOSE_DIV)

  const TITLE_PATTERNS := [
    Enclosure("<div class=\"bookTitle\">", "</div>"),
    Enclosure("<h2 class=\"bookTitle\">", "</h2>"),
    Enclosure("<h1>", "</h1>")
  ]

  const AUTHOR_PATTERNS := [
    Enclosure("<div class=\"authors\">", "</div>"),
    Enclosure("<h3 class=\"authors\">", "</h3>"),
    Enclosure("<div class=\"author\">", "</div>")
  ]

  // ---------------------------------------------------------------------------------------------
  // Title and authors

  /** The capture of the first pattern, in order, that matches. */
  function FirstMatch(patterns: seq<Enclosure>, s: string): Option<string> {
    if patterns == [] then None
    else
      match MatchEnclosed(s, patterns[0])
      case Some(v) => Some(v)
      case None => FirstMatch(patterns[1..], s)
  }

  function Title(html: string): string {
    match FirstMatch(TITLE_PATTERNS, html)
    case Some(v) => Trim(v)
    case None => UNKNOWN_TITLE
  }

  function Authors(html: string): Option<string> {
    match FirstMatch(AUTHOR_PATTERNS, html)
    case Some(v) => Some(Trim(v))
    case None => None
  }

  // ---------------------------------------------------------------------------------------------
  // Tier 1: section-scoped extraction

  /** The colour named by the first `highlight_…` span of a heading, or `"default"`. */
  function ColorOf(heading: string): string {
    match MatchColor(heading)
    case Some(c) => Trim(c)
    case None => DEFAULT_COLOR
  }

  /** The record both section sub-methods push for a (trimmed) heading and text. */
  function SectionNote(section: string, heading: string, text: string): Highlight {
    Highlight(section, StripHtml(heading), text, Some(ColorOf(heading)))
  }

  /** Sub-method 1 on one fragment after a `noteHeading` marker: the heading is what precedes the first
      `</div>`, the text the first `noteText` capture after it; an empty capture yields nothing. */
  function NoteFromFragment(frag: string, section: string): Option<Highlight> {
    var headingParts := Split(frag, CLOSE_DIV);
    if |headingParts| > 1 then
      match MatchEnclosed(Join(headingParts[1..], CLOSE_DIV), NOTE_TEXT)
      case Some(t) => if t != "" then Some(SectionNote(section, Trim(headingParts[0]), Trim(t))) else None
      case None => None
    else None
  }

  /** The zero or one records an optional record stands for. */
  function NoteList(h: Option<Highlight>): seq<Highlight> {
    match h
    case Some(v) => [v]
    case None => []
  }

  function NotesFromFragments(frags: seq<string>, section: string): seq<Highlight> {
    if frags == [] then [] else NoteList(NoteFromFragment(frags[0], section)) + NotesFromFragments(frags[1..], section)
  }

  /** Sub-method 1: split the section on the `noteHeading` marker and skip the first piece. */
  function ByHeadingSplit(content: string, section: string): seq<Highlight> {
    NotesFromFragments(Split(content, NOTE_HEADING)[1..], section)
  }

  function NotesFromMatches(ms: seq<Match>, section: string): seq<Highlight>
  {
    if ms == [] then []
    else [SectionNote(section, Trim(ms[0].group1), Trim(ms[0].group2))] + NotesFromMatches(ms[1..], section)
  }

  /** Sub-method 2: every match of the exact-tag pair regex over the section. */
  function ByPairRegex(content: string, section: string): seq<Highlight> {
    NotesFromMatches(AllFrom(NotePair(Exact), content, 0), section)
  }

  /** `extractHighlightsFromSection`: sub-method 2 is consulted only when sub-method 1 found nothing. */
  function SectionHighlights(content: string, section: string): seq<Highlight> {
    var first := ByHeadingSplit(content, section);
    if |first| > 0 then first else ByPairRegex(content, section)
  }

  /** A section fragment's name: its trimmed text before the first `</div>`. */
  function SectionName(frag: string): string {
    Trim(Split(frag, CLOSE_DIV)[0])
  }

  /** A section fragment's content: the pieces after the first, re-joined with `</div>`. */
  function SectionContent(frag: string): string {
    Join(Split(frag, CLOSE_DIV)[1..], CLOSE_DIV)
  }

  function SectionsHighlights(frags: seq<string>): seq<Highlight> {
    if frags == [] then []
    else SectionHighlights(SectionContent(frags[0]), SectionName(frags[0])) + SectionsHighlights(frags[1..])
  }

  /** `extractHighlightsUsingMultiplePatterns`: every fragment after a `sectionHeading` marker is a section;
      without a marker the whole document is one section named `""`. */
  function Tier1(html: string): seq<Highlight> {
    var sections := Split(html, SECTION_HEADING);
    if |sections| > 1 then SectionsHighlights(sections[1..]) else SectionHighlights(html, "")
  }

  // ---------------------------------------------------------------------------------------------
  // Tiers 2 and 3: `extractHighlightsFallbackMethod`

  function FallbackNotes(ms: seq<Match>): seq<Highlight>
  {
    if ms == [] then []
    else
      var heading := Trim(ms[0].group1);
      [Highlight("", StripHtml(heading), Trim(ms[0].group2), Some(DEFAULT_COLOR))] + FallbackNotes(ms[1..])
  }

  /** Tier 2: every match of the attribute-tolerant pair regex over the whole document, uncoloured. */
  function Tier2(html: string): seq<Highlight> {
    FallbackNotes(AllFrom(NotePair(Loose), html, 0))
  }

  function DivTexts(ms: seq<Match>): (r: seq<string>)
  {
    if ms == [] then [] else [Trim(ms[0].group1)] + DivTexts(ms[1..])
  }

  /** The trimmed inner text of every `<div…>…</div>` match, in document order. */
  function DivBlocks(html: string): seq<string> {
    DivTexts(AllFrom(DivBlock, html, 0))
  }

  /** The tier-3 test on two adjacent blocks (lengths in characters). */
  predicate Accept(heading: string, text: string) {
    |heading| > 5 && |text| > 10 && '<' !in heading && '<' !in text
  }

  /** The tier-3 pairing from cursor `i`: an accepted pair consumes both blocks, a rejected one only the first. */
  function AdjacentPairs(blocks: seq<string>, i: nat): seq<Highlight>
    decreases |blocks| - i
  {
    if i + 1 >= |blocks| then []
    else if Accept(blocks[i], blocks[i + 1]) then
      [Highlight("", blocks[i], blocks[i + 1], Some(DEFAULT_COLOR))] + AdjacentPairs(blocks, i + 2)
    else AdjacentPairs(blocks, i + 1)
  }

  /** Tier 3: the adjacent-block heuristic over the whole document. */
  function Tier3(html: string): seq<Highlight> {
    AdjacentPairs(DivBlocks(html), 0)
  }

  // ---------------------------------------------------------------------------------------------
  // The whole parse

  /** The highlight cascade: each tier is consulted only when the previous ones found nothing. */
  function Highlights(html: string): seq<Highlight> {
    var t1 := Tier1(html);
    if |t1| > 0 then t1
    else
      var t2 := Tier2(html);
      if |t2| > 0 then t2 else Tier3(html)
  }

  function Parse(html: string): BookData {
    BookData(Title(html), Authors(html), Highlights(html))
  }
}
