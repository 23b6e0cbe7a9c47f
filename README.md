# Kindle highlights to Notion: a verified model of the extractor and the page layout

The system reads the HTML export of a Kindle notebook and files its highlights in a Notion database.
This project models its two computing parts in Dafny:

- **The extractor** (`src/kindle-parser.ts`). `parseKindleHighlights` finds the title and the authors,
  each through three patterns tried in order. It then collects the highlights through three tiers that
  all push into one shared array:
  - tier 1 cuts the document at the `sectionHeading` markers and tries two sub-methods per section;
  - tier 2 runs a document-wide `noteHeading`/`noteText` pair regex;
  - tier 3 pairs adjacent `<div>` texts.
  Each tier runs only when the tiers before it found nothing. Headings lose their tags through `stripHtml`.
- **The page layout** (`src/notion.ts`):
  - `mapHighlightColor`;
  - `organizeHighlightsBySection`, which groups the highlights by section;
  - what `createNotionPage` sends: the page properties, then a `heading_2` request per section, then the
    section's highlights in batches of 45, two blocks per highlight.

Each fixed regular expression is written out as a scan over `seq<char>` that follows JavaScript's
matching order (module `Patterns`):

- the leftmost start index wins;
- a lazy `(.*?)` tries the shortest group first;
- `.` stops at a line terminator unless the `s` flag is set;
- a global `exec` loop resumes at the end of the previous match.

The shared `highlights` array is the class `KindleParser.HighlightBuffer`. Each extraction function of
the source is a module-level method of `KindleParser` that takes the buffer as a parameter, modifies
it, and is proved to append exactly what a specification function in `KindleSpec` computes. The properties the source promises are proved about those functions in
`KindleProperties`. Likewise, the Notion loops in `Notion` are proved to compute `Notion` functions, and
`NotionProperties` proves the layout's guarantees.

Modules: `Wrappers` (`Option`), `Strings` (JavaScript whitespace, `trim`, substring search, `split`, `join`),
`Markup` (`stripHtml`), `Patterns`, `Layouts` (text written out as the regexes expect, and what the scans
find in it), `Types` (the records of `src/types.ts`), `KindleSpec`, `KindleParser`, `KindleProperties`,
`KindleExtraction` (what each tier extracts from such text), `Notion`, `NotionProperties`.

Four things about the code may not be what a reader expects. The model follows the code in each:

- **The title can be empty.** One might expect a matched title never to be empty. The code trims the
  capture, so a whitespace-only `bookTitle` gives `""` (see `KindleProperties.BlankTitle`).
- **A note-less export is not empty.** One might expect an export with a title and authors but no notes to
  give no highlights. Tiers 1 and 2 do find nothing there. Tier 3's `<div[^>]*>` then also matches the
  `bookTitle` and `authors` divs. When the trimmed title is over 5 characters, the trimmed authors over 10,
  and neither holds a `<` or a `>`, the pair becomes one highlight: the title is its heading and the authors its text
  (see `KindleExtraction.HighlightsNoteless`).
- **Tier 2 tolerates attributes.** Its tags are `[^>]*`-tolerant: `class="noteHeading"` may sit among
  other attributes. The section path uses exact tags (`Patterns.TagStyle`).
- **Section order.** `Object.entries` lists array-index keys (section names such as `"1"`) first, in
  ascending numeric order, and only then the other keys in insertion order. The model keeps this order
  (`Notion.EntryOrder`), so groups come in first-appearance order only when no section name is a number.

## Model

| member | source | states |
|---|---|---|
| Strings.Trim | src/kindle-parser.ts:93 | `trim` keeps one contiguous piece of its input, everything cut off on either side is JavaScript whitespace, and the piece kept starts and ends with a non-space character |
| Strings.TrimAllSpace | src/kindle-parser.ts:182 | a whitespace-only string trims to `""` |
| Strings.TrimSingleLine | src/kindle-parser.ts:189 | trimming never introduces a line terminator |
| Strings.SkipSpace | src/kindle-parser.ts:205 | a greedy `\s*` stops at the first non-space character or the end of the string, and consumes only whitespace |
| Strings.FindFrom | src/kindle-parser.ts:91 | the substring search underlying `split` with a string separator (and the regex scans): the first occurrence at or after the start, and `None` only when there is none |
| Strings.FindFromAbsent | src/kindle-parser.ts:91 | when the pattern occurs nowhere at or after the start, the search fails |
| Strings.Split | src/kindle-parser.ts:91 | `split` always gives at least one piece |
| Strings.JoinSplit | src/kindle-parser.ts:94 | joining the pieces of a split with the same separator gives the string back |
| Strings.SplitPiecesFree | src/kindle-parser.ts:172 | no piece of a split contains the separator |
| Strings.SplitCount | src/kindle-parser.ts:88 | a split has more than one piece exactly when the separator occurs, and is `[s]` otherwise |
| Strings.SplitAroundFirst | src/kindle-parser.ts:91-94 | the first piece is the text before the first separator; the rest, re-joined, is the text after it |
| Strings.SplitDropPrefix | src/kindle-parser.ts:85-90 | cutting off the text before the first separator leaves the later pieces unchanged |
| Strings.SplitFound | src/kindle-parser.ts:91 | with the first separator at `i`, the split is the text before `i`, then the split of the text after the separator |
| Strings.SplitAt | src/kindle-parser.ts:91 | a piece without an unbordered separator, the separator and a rest split into that piece, then the rest's pieces |
| Strings.SplitJoin | src/kindle-parser.ts:94 | splitting pieces joined with an unbordered separator that none of them holds gives the pieces back |
| Strings.FindAfterSuffix | src/kindle-parser.ts:91 | after text without an unbordered pattern, the search finds the pattern right where that text ends |
| Markup.StripHtml | src/kindle-parser.ts:248-250 | removing tags never lengthens the text |
| Markup.StripAroundTag | src/kindle-parser.ts:248-250 | text without `<` followed by a tag `<t>` (no `>` in `t`) keeps the text and loses the tag whole, and stripping goes on after it |
| Markup.StripLeadingTag | src/kindle-parser.ts:248-250 | a leading tag is dropped whole |
| Markup.StripTrailingTag | src/kindle-parser.ts:248-250 | a trailing tag after text without `<` is dropped and the text kept |
| Markup.StripWrapped | src/kindle-parser.ts:248-250 | text without `<` between an opening and a closing tag comes out as just that text |
| Markup.StripDivExample | src/main.test.ts:122 | `<div>Simple text</div>` strips to `Simple text` |
| Markup.StripSpanExample | src/main.test.ts:123 | `<span style="color:red">Red text</span>` strips to `Red text` |
| Markup.StripNoLess | src/kindle-parser.ts:248-250 | text without `<` comes back unchanged |
| Markup.StripNoGreater | src/kindle-parser.ts:248-250 | text without `>` comes back unchanged |
| Markup.StripLeavesNoTag | src/kindle-parser.ts:248-250 | after stripping, no `<` is followed anywhere later by `>` |
| Markup.StripTagFree | src/kindle-parser.ts:248-250 | text with no `<…>` span is a fixed point of stripping |
| Markup.StripIdempotent | src/kindle-parser.ts:248-250 | stripping twice equals stripping once |
| Patterns.EnclosedFromNone | src/kindle-parser.ts:21 | once the first opener has no closer after it, no later start index matches |
| Patterns.EnclosedFromNoOpener | src/kindle-parser.ts:21 | with no opener at or after the start, there is no match |
| Patterns.EnclosedFromFirst | src/kindle-parser.ts:21-23 | the leftmost-attempt search captures from the first opener to the first closer after it |
| Patterns.MatchEnclosedIsFirst | src/kindle-parser.ts:27 | `match` without `g` equals the reference reading "first opener, then first closer" |
| Patterns.MatchEnclosedAt | src/kindle-parser.ts:180 | with the first opener at `p` and the first closer after it at `c`, the capture is the text between them |
| Patterns.MatchEnclosedAfter | src/kindle-parser.ts:180 | text without the opener, the opener, a capture without the closer and the closer: exactly that capture |
| Patterns.ColorGroupEnd | src/kindle-parser.ts:186 | the lazy colour group ends at a `">` from which the tail `.*?<\/span>` succeeds, crosses no line terminator, and no earlier `">` with a successful tail lies before it (laziness) |
| Patterns.SpanTailReach | src/kindle-parser.ts:186 | the tail succeeds whenever a `</span>` is reached before any line terminator |
| Patterns.ColorGroupEndReach | src/kindle-parser.ts:186 | the lazy group ends at the first `">` with a successful tail when no line terminator and no earlier `">` precede it |
| Patterns.ColorFromSkip | src/kindle-parser.ts:186 | start indices without the opener are passed over by the leftmost-match search |
| Patterns.ColorFromFound | src/kindle-parser.ts:186 | an attempt at an opener whose lazy group ends at `e` captures the text from the opener's end to `e` |
| Patterns.MatchColorFirstSpan | src/kindle-parser.ts:186 | with the first opener followed by a clean group, `">`, one line of text and `</span>`, the match captures exactly that group |
| Patterns.ColorAt | src/kindle-parser.ts:186 | a colour capture lies on one line (the regex has no `s` flag) |
| Patterns.ColorFrom | src/kindle-parser.ts:214 | the leftmost colour capture lies on one line |
| Patterns.MatchColor | src/kindle-parser.ts:186 | the colour capture of a heading lies on one line |
| Patterns.OpenDivAt | src/kindle-parser.ts:113 | a recognised `div` opener ends after its start and within the text (which opener it recognises: `OpenDivExact`, `OpenDivLoose`, `OpenDivTag`) |
| Patterns.OpenDivExact | src/kindle-parser.ts:205 | the exact opener is recognised at `p` exactly when the literal `<div class="cls">` starts there, and ends after it |
| Patterns.OpenDivLoose | src/kindle-parser.ts:113 | with `<div` at `p` and its first `>` at `g`, the loose opener `<div[^>]*class="cls"[^>]*>` is recognised, ending after that `>`, exactly when `class="cls"` lies between `<div` and `>` |
| Patterns.OpenDivLooseUnclosed | src/kindle-parser.ts:113 | with no `>` after `<div`, the loose opener is not recognised |
| Patterns.OpenDivTag | src/kindle-parser.ts:113 | the literal opener is recognised in either style and ends after its `>` |
| Patterns.NoteTextAfter | src/kindle-parser.ts:205 | the noteText half of the pair regex ends after the `</div>` it starts from (its capture: `NoteTextAfterSpec`) |
| Patterns.NoteTextAfterSpec | src/kindle-parser.ts:205 | from a `</div>` at `k`, `\s*` is skipped, the noteText opener must follow, and the capture runs from that opener's end to the first `</div>` after it, where the match ends; without the opener or without that `</div>` the half fails |
| Patterns.NoteTextAfterAt | src/kindle-parser.ts:205 | with the whitespace skipped to `n`, the opener there ending at `t` and the first `</div>` after it at `c`, the capture is `s[t..c]` |
| Patterns.NoteTextAfterMissing | src/kindle-parser.ts:205 | without the noteText opener after the whitespace, the half fails |
| Patterns.NoteTextAfterUnclosed | src/kindle-parser.ts:205 | without a `</div>` after the noteText opener, the half fails |
| Patterns.NotePairBody | src/kindle-parser.ts:205 | a pair match found from a candidate end index ends after that index and within the text (which match: `NotePairBodyAt`, `NotePairBodyNone`) |
| Patterns.NotePairBodyAt | src/kindle-parser.ts:205 | the lazy first group ends at the first `</div>` from which the noteText half succeeds, and the second group and the end are that half's |
| Patterns.NotePairBodySkip | src/kindle-parser.ts:205 | where the rest of the regex fails, the first group grows by one character |
| Patterns.NotePairBodyNone | src/kindle-parser.ts:205 | with no index where the rest succeeds, the pair regex fails from that start |
| Patterns.AttemptAt | src/kindle-parser.ts:113 | a match attempted at index `p` ends after `p` and within the text, so `lastIndex` advances (its captures: `AttemptPairAt`, `AttemptDivAt`) |
| Patterns.AttemptPairAt | src/kindle-parser.ts:113 | a pair attempt at `p` whose noteHeading opener ends at `q`: group 1 runs from `q` to the first index `e` where the rest succeeds, and group 2 and the end are the noteText half's from `e` |
| Patterns.AttemptDivAt | src/kindle-parser.ts:133 | a `div` attempt at `<div`: the capture runs from after the first `>` to the first `</div>` after it, and the match ends after that `</div>` |
| Patterns.AttemptNoTag | src/kindle-parser.ts:113 | no attempt succeeds at an index without `<` |
| Patterns.Next | src/kindle-parser.ts:116 | `exec` from `lastIndex` returns a match ending after `lastIndex` (which match: `NextAt`, `NextNone`) |
| Patterns.NextAt | src/kindle-parser.ts:116 | `exec` returns the attempt at the leftmost index at or after `lastIndex` where one succeeds |
| Patterns.NextNone | src/kindle-parser.ts:116 | `exec` returns `null` when no attempt at or after `lastIndex` succeeds |
| Patterns.NextNoneAll | src/kindle-parser.ts:116 | when `exec` returns `null`, no attempt at or after `lastIndex` succeeds |
| Patterns.AllFrom | src/kindle-parser.ts:208 | every match an `exec` loop sees ends after the start and within the text (which matches: `AllFromChain`, `AllFromOfChain`) |
| Patterns.AllFromStep | src/kindle-parser.ts:208 | the loop's matches are the one `exec` returns, then the loop's matches from its end |
| Patterns.AllFromChain | src/kindle-parser.ts:208 | the loop's matches are a chain: the first is `exec` from the start, each next one is `exec` from the end of the one before, and after the last `exec` returns `null` |
| Patterns.AllFromOfChain | src/kindle-parser.ts:208 | conversely, any such chain is exactly what the loop collects |
| Layouts.NoteTextAfterText | src/kindle-parser.ts:205 | `</div>`, whitespace, the noteText opener, a text without `</div>` and `</div>`: the noteText half captures that text and ends after the last `</div>` |
| Layouts.AttemptPairHeading | src/kindle-parser.ts:205 | after the noteHeading opener, a heading without `</div>` followed by a successful noteText half is captured as group 1 |
| Layouts.AttemptPairText | src/kindle-parser.ts:205 | a written-out pair whose heading and text hold no `</div>` is matched whole, in either tag style, with its heading and text as the groups |
| Layouts.NextAfterText | src/kindle-parser.ts:116 | `exec` passes over text without `<` and returns the match at its end |
| Layouts.NextNoneText | src/kindle-parser.ts:116 | with no `<` left, `exec` returns `null` |
| Layouts.NextPair | src/kindle-parser.ts:208 | `exec` from the leading text of a well-formed pair returns that pair's heading and text, ending after the pair |
| Layouts.NextPairs | src/kindle-parser.ts:208 | the same for the first of several pairs, whose match ends where the next pair's text begins |
| Layouts.AllFromPairs | src/kindle-parser.ts:205-208 | the `exec` loop over N well-formed pairs and a tag-free trail finds exactly N matches, in order, each with its pair's heading and text |
| Layouts.AllPairs | src/kindle-parser.ts:113-116 | the same over a whole text that starts with the pairs |
| Layouts.AttemptDivText | src/kindle-parser.ts:133 | the `div` regex at `<div>x</div>` with `x` free of `<` captures `x` and ends after the block |
| Layouts.NextBlock | src/kindle-parser.ts:134 | `exec` from the leading text of a well-formed block returns that block's content |
| Layouts.NextBlocks | src/kindle-parser.ts:134 | the same for the first of several blocks, whose match ends where the next block's text begins |
| Layouts.AllFromBlocks | src/kindle-parser.ts:133-136 | the `div` loop over N well-formed blocks and a tag-free trail finds exactly N matches, in order, each capturing its block's content |
| Layouts.AllBlocks | src/kindle-parser.ts:133-136 | the same over a whole text that starts with the blocks |
| Layouts.PlainDivsBlocks | src/kindle-parser.ts:133 | plain blocks of `<`-free text carry no tag attribute |
| Layouts.PlainDivsNoClass | src/kindle-parser.ts:85 | text whose tags carry no attribute holds no `<d…` tag with a space, so neither the section nor the noteHeading marker |
| Layouts.PlainDivsNoPair | src/kindle-parser.ts:113 | neither pair regex matches anywhere in such text |
| KindleParser.HighlightBuffer.constructor | src/kindle-parser.ts:51 | the buffer starts empty |
| KindleParser.HighlightBuffer.Push | src/kindle-parser.ts:192 | `push` appends one record and keeps the rest |
| KindleParser.FirstPatternMatch | src/kindle-parser.ts:26-32 | the `for … break` loop yields the first matching pattern's capture; it yields nothing exactly when no pattern matches |
| KindleParser.ParseKindleHighlights | src/kindle-parser.ts:13-77 | the record is the title cascade, the author cascade and the highlight cascade of `Parse` |
| KindleParser.Cascade | src/kindle-parser.ts:54-59 | the buffer's final contents are tier 1, or tier 2 followed by tier 3 when tier 2 is also empty |
| KindleParser.ExtractHighlightsUsingMultiplePatterns | src/kindle-parser.ts:82-105 | appends exactly the tier-1 records and leaves earlier ones in place |
| KindleParser.SectionsStep | src/kindle-parser.ts:90-97 | one section turn contributes that section's records, then come the later sections' |
| KindleParser.ExtractHighlightsFromSection | src/kindle-parser.ts:166-243 | appends sub-method 1's records, or sub-method 2's when sub-method 1 added nothing |
| KindleParser.ExtractByHeadingSplit | src/kindle-parser.ts:171-201 | appends one record per qualifying `noteHeading` fragment, in order |
| KindleParser.FragmentsStep | src/kindle-parser.ts:174-200 | one fragment turn contributes that fragment's record, then come the later fragments' |
| KindleParser.PushFragmentNote | src/kindle-parser.ts:175-199 | a fragment appends its record when it has a `</div>` and a non-empty `noteText` capture, and appends nothing otherwise |
| KindleParser.HighlightColor | src/kindle-parser.ts:185-190 | the colour is the trimmed capture of the colour regex, else `"default"` (`KindleSpec.ColorOf`; its value on a well-formed span is `KindleProperties.ColorOfSpan`) |
| KindleParser.AllFromStep | src/kindle-parser.ts:116 | the matches left for an `exec` loop are the next match, then the matches after its end |
| KindleParser.PairInvariantStep | src/kindle-parser.ts:208-226 | one `exec` turn of sub-method 2 keeps the loop invariant: the records so far plus the records of the matches left are `ByPairRegex` |
| KindleParser.PairStep | src/kindle-parser.ts:208-226 | one `exec` turn of sub-method 2 contributes one record, then the later matches' records |
| KindleParser.ExtractByPairRegex | src/kindle-parser.ts:204-227 | appends one record per match of the exact-tag pair regex, in order |
| KindleParser.ExtractHighlightsFallbackMethod | src/kindle-parser.ts:110-161 | appends the tier-2 records, then the tier-3 records when the buffer is still empty |
| KindleParser.LooseInvariantStep | src/kindle-parser.ts:116-126 | one tier-2 turn keeps the loop invariant: the records so far plus the records of the matches left are tier 2 |
| KindleParser.LoosePairStep | src/kindle-parser.ts:116-126 | one tier-2 turn contributes one record, then the later matches' records |
| KindleParser.PushNotePairs | src/kindle-parser.ts:113-126 | appends one uncoloured record per match of the attribute-tolerant pair regex |
| KindleParser.DivStep | src/kindle-parser.ts:134-136 | one tier-3 collection turn contributes one trimmed block text |
| KindleParser.CollectDivBlocks | src/kindle-parser.ts:130-136 | the collected list is the trimmed inner text of every `div` match, in order |
| KindleParser.PushAdjacentPairs | src/kindle-parser.ts:139-154 | appends the pairs the accept-or-slide walk accepts |
| KindleProperties.FirstMatchAt | src/kindle-parser.ts:26-32 | the cascade gives pattern `i`'s capture when every earlier pattern fails and pattern `i` matches |
| KindleProperties.FirstMatchNone | src/kindle-parser.ts:26-32 | the cascade gives nothing exactly when every pattern fails |
| KindleProperties.TitleFromPattern | src/kindle-parser.ts:19-32 | the title is the trimmed text between the first opener and the next closer of the first title pattern that occurs |
| KindleProperties.TitleDefault | src/kindle-parser.ts:19 | with no title pattern present, the title is `不明なタイトル` |
| KindleProperties.BlankTitle | src/kindle-parser.ts:29 | a whitespace-only `bookTitle` capture makes the title `""` |
| KindleProperties.AuthorsFromPattern | src/kindle-parser.ts:35-48 | the authors are the trimmed capture of the first author pattern that occurs |
| KindleProperties.AuthorsAbsent | src/kindle-parser.ts:35-48 | the authors are absent (not `""`) exactly when no author pattern occurs |
| KindleProperties.Tier1NoSections | src/kindle-parser.ts:98-101 | without a section marker, the whole document is one section named `""` |
| KindleProperties.Tier1DropsPreamble | src/kindle-parser.ts:88-90 | the text before the first section marker contributes nothing |
| KindleProperties.SectionRebuild | src/kindle-parser.ts:91-94 | with a `</div>` present, the raw name, `</div>` and the content rebuild the fragment; the raw name holds no `</div>`, and the section name is that raw name trimmed |
| KindleProperties.SectionWithoutCloser | src/kindle-parser.ts:91-94 | without a `</div>`, the fragment trimmed is the name and the content is empty |
| KindleProperties.NotesFromFragmentsBound | src/kindle-parser.ts:174-200 | at most one record per fragment |
| KindleProperties.ByHeadingSplitBound | src/kindle-parser.ts:172-174 | sub-method 1 yields at most one record per `noteHeading` marker |
| KindleProperties.FragmentNeedsCloser | src/kindle-parser.ts:176 | a fragment yields a record only if it contains `</div>` |
| KindleProperties.WhitespaceBodyKept | src/kindle-parser.ts:181-182 | a non-empty but whitespace-only body is kept, as a record with text `""` |
| KindleProperties.ColorFromNoOpener | src/kindle-parser.ts:186 | without a `<span class="highlight_` opener there is no colour capture |
| KindleProperties.ColorDefault | src/kindle-parser.ts:185-190 | a heading without a colour span gets `"default"` |
| KindleProperties.ColorOfSpan | src/kindle-parser.ts:185-190 | a heading whose first opener is followed by a one-line colour `c` without `">`, then `">`, one line of text and `</span>`, gets `c` trimmed |
| KindleProperties.GroupClean | src/kindle-parser.ts:186 | a one-line colour word without `">`, followed by `">`, holds no line terminator and no `">` start |
| KindleProperties.TailClean | src/kindle-parser.ts:186 | one line of text placed in the heading holds no line terminator |
| KindleProperties.YellowOpener | src/main.test.ts:112 | the test heading starts with the colour opener |
| KindleProperties.YellowGroup | src/main.test.ts:115 | `yellow` holds no `">` and is already trimmed |
| KindleProperties.ColorYellowExample | src/main.test.ts:111-116 | `<span class="highlight_yellow">Chapter 1</span>, Location 123` gets the colour `yellow` |
| KindleProperties.ColorSingleLine | src/kindle-parser.ts:189 | a colour is trimmed and lies on one line |
| KindleProperties.SectionNoteShape | src/kindle-parser.ts:192-197 | a tier-1 record carries its section, a one-line trimmed colour, a tag-free heading and trimmed text |
| KindleProperties.NotesFromFragmentsShape | src/kindle-parser.ts:174-200 | every sub-method-1 record has that shape |
| KindleProperties.NotesFromMatchesShape | src/kindle-parser.ts:208-226 | every sub-method-2 record has that shape |
| KindleProperties.SectionHighlightsShape | src/kindle-parser.ts:231-239 | every record of a section, from either sub-method, has that shape |
| KindleProperties.SectionsHighlightsShape | src/kindle-parser.ts:90-97 | every tier-1 record is named after one of the fragments after a section marker |
| KindleProperties.FallbackNotesShape | src/kindle-parser.ts:116-126 | every tier-2 record has section `""`, colour `"default"`, a tag-free heading and trimmed text |
| KindleProperties.Tier2Shape | src/kindle-parser.ts:113-126 | the same holds for all of tier 2 |
| KindleProperties.DivTextsTrimmed | src/kindle-parser.ts:135 | every collected block text is trimmed |
| KindleProperties.NoLessTagFree | src/kindle-parser.ts:145 | text without `<` has no tag |
| KindleProperties.AdjacentPairsFromBlocks | src/kindle-parser.ts:139-154 | every tier-3 record is an accepted pair of consecutive blocks |
| KindleProperties.AdjacentPairsBound | src/kindle-parser.ts:139-154 | at most half of the blocks from the cursor on become records |
| KindleProperties.Tier3Bound | src/kindle-parser.ts:139-154 | tier 3 yields at most ⌊n/2⌋ records for n blocks |
| KindleProperties.Tier3Shape | src/kindle-parser.ts:144-151 | every tier-3 record passes the length and `<` test and is an uncoloured, section-less record |
| KindleProperties.ParseShape | src/kindle-parser.ts:13-77 | every record of the parse has a colour, a tag-free heading and trimmed text |
| KindleExtraction.MatchNoteText | src/kindle-parser.ts:180 | the `noteText` match over tag-free text, the opener, a text without `</div>`, `</div>` and more captures that text |
| KindleExtraction.NoteFromFragmentPair | src/kindle-parser.ts:175-198 | a fragment `H + "</div>" + R` with no `</div>` in `H` and a non-empty `noteText` capture `t` of `R` gives the record of `H` and `t` trimmed |
| KindleExtraction.FragmentNote | src/kindle-parser.ts:175-198 | the fragment of a written-out pair gives the record of its trimmed heading and text |
| KindleExtraction.HeadingSplitOne | src/kindle-parser.ts:172-174 | a section content holding one `noteHeading` marker splits into one fragment after the first piece |
| KindleExtraction.ByHeadingSplitOne | src/kindle-parser.ts:171-201 | sub-method 1 on a well-formed section gives exactly the record of its pair |
| KindleExtraction.SectionHighlightsFirst | src/kindle-parser.ts:231-239 | when sub-method 1 finds something, that is the section's answer |
| KindleExtraction.SectionHighlightsOne | src/kindle-parser.ts:166-243 | a well-formed section gives exactly the record of its pair, attributed to the given section |
| KindleExtraction.SectionParts | src/kindle-parser.ts:91-94 | a section's name and content are read back from the text after its marker, the name trimmed |
| KindleExtraction.SectionsHighlightsCons | src/kindle-parser.ts:90-96 | tier 1 handles the section texts one after another |
| KindleExtraction.Tier1Split | src/kindle-parser.ts:88-90 | with a section marker present, tier 1 reads the fragments after the first |
| KindleExtraction.SplitSections | src/kindle-parser.ts:85 | splitting a preamble and N sections on the marker gives the preamble, then each section's text |
| KindleExtraction.SectionsHighlightsOf | src/kindle-parser.ts:90-97 | each well-formed section gives its pair's record under its trimmed name, in order |
| KindleExtraction.Tier1Sections | src/kindle-parser.ts:82-105 | tier 1 on a preamble and N well-formed sections gives exactly N records, record `i` with section `i`'s trimmed name, heading and text |
| KindleExtraction.HighlightsSections | src/kindle-parser.ts:54-59 | the whole cascade on such a document gives exactly N records, in document order, each attributed to its section |
| KindleExtraction.FallbackOfPairs | src/kindle-parser.ts:116-126 | the tier-2 records of the pairs' matches are one uncoloured record per pair |
| KindleExtraction.NotesOfPairs | src/kindle-parser.ts:208-226 | the sub-method-2 records of the pairs' matches are one record per pair |
| KindleExtraction.Tier2Pairs | src/kindle-parser.ts:113-126 | tier 2 on N well-formed pairs and a tag-free trail gives N records, in order, with each pair's trimmed, tag-stripped heading, trimmed text, section `""` and colour `"default"` (the example of src/main.test.ts:56-78 is such a text) |
| KindleExtraction.ByPairRegexPairs | src/kindle-parser.ts:205-226 | sub-method 2 on the same layout gives one coloured record per pair, attributed to the section |
| KindleExtraction.DivTextsOfBlocks | src/kindle-parser.ts:134-136 | the collected texts of the blocks' matches are the blocks' trimmed contents |
| KindleExtraction.DivBlocksLayout | src/kindle-parser.ts:130-136 | tier 3 collects each well-formed block's trimmed content, in order |
| KindleExtraction.AdjacentPairsShift | src/kindle-parser.ts:139-154 | the walk from cursor `j + i` is the walk over the blocks from `j` on, from cursor `i` |
| KindleExtraction.AdjacentPairsAccept | src/kindle-parser.ts:144-152 | an accepted pair at the cursor becomes a record, and the walk goes on after both blocks |
| KindleExtraction.AdjacentPairsOfPairs | src/kindle-parser.ts:139-154 | the walk over plausible heading/text block pairs accepts every pair |
| KindleExtraction.Tier3Pairs | src/kindle-parser.ts:130-154 | tier 3 on N plausible block pairs and a tag-free trail gives N uncoloured records, in order, from the trimmed contents |
| KindleExtraction.PlainTier1 | src/kindle-parser.ts:82-105 | on text whose tags carry no attribute tier 1 finds nothing |
| KindleExtraction.PlainTier2 | src/kindle-parser.ts:113-126 | on such text tier 2 finds nothing |
| KindleExtraction.HighlightsPlain | src/kindle-parser.ts:54-59 | so the cascade's answer on such text is tier 3's |
| KindleExtraction.HighlightsBlockPairs | src/main.test.ts:158-194 | a document of N plausible `<div>` heading/text pairs gives exactly N uncoloured records, in order, from the trimmed contents |
| KindleExtraction.HighlightsTwoBlocks | src/kindle-parser.ts:139-154 | two `<`-free `div` blocks, the first over 5 and the second over 10 characters once trimmed, give exactly one record: heading and text the trimmed blocks, section `""`, colour `"default"` |
| KindleExtraction.ClassDivsTier1 | src/kindle-parser.ts:82-105 | two `div` blocks of short classes other than `sectionHeading` and `noteHeading`, with contents free of `<` and `>`, give no tier-1 record |
| KindleExtraction.ClassDivsNoPair | src/kindle-parser.ts:113-126 | neither the exact nor the attribute-tolerant pair regex matches anywhere in such text |
| KindleExtraction.ClassDivsBlocks | src/kindle-parser.ts:130-136 | tier 3 collects the two blocks' trimmed contents, since `<div[^>]*>` accepts the class attribute |
| KindleExtraction.HighlightsClassDivs | src/kindle-parser.ts:54-59 | the whole cascade on two such blocks, the first over 5 and the second over 10 characters once trimmed, gives exactly one record made of them: section `""`, colour `"default"` |
| KindleExtraction.HighlightsNoteless | src/kindle-parser.ts:130-154 | an export of only the `bookTitle` and `authors` divs is not empty: with the trimmed title over 5 and the trimmed authors over 10 characters, it gives exactly one highlight whose heading is the title and whose text is the authors |
| Notion.MapHighlightColor | src/notion.ts:227-240 | the four Kindle colours map to their `_background` and everything else, `undefined` included, maps to `"default"`, in both directions |
| Notion.SectionKey | src/notion.ts:178 | the group key is never empty |
| Notion.OrganizeHighlightsBySection | src/notion.ts:174-188 | the loop builds the grouping `Organize` |
| Notion.TitleKey | src/notion.ts:31 | the title column is `notionTitleProperty` when set and non-empty, else `"Name"` |
| Notion.PageProperties | src/notion.ts:30-52 | the title sits under the title key; the authors sit under the author key exactly when both are non-empty, overwriting the title when the keys coincide; there are no other keys |
| Notion.BuildBatchBlocks | src/notion.ts:116-157 | the batch's blocks are `BlocksOf` of the batch |
| Notion.BatchesStep | src/notion.ts:114-115 | one batch turn contributes the blocks of `slice(i, i + 45)`, then the later batches' |
| Notion.AppendSectionBatches | src/notion.ts:114-164 | the batch loop appends one request per batch of the section |
| Notion.CreateNotionPage | src/notion.ts:28-169 | the properties are `PageProperties` and the requests, in sending order, are `PageRequests` |
| NotionProperties.OrganizeWellFormed | src/notion.ts:174-188 | the group keys are distinct and non-empty, they are exactly the record's keys, and no group is empty |
| NotionProperties.OrganizeSelect | src/notion.ts:177-185 | each group is exactly the highlights with that key, in input order |
| NotionProperties.SelectEmpty | src/notion.ts:178-184 | no highlight is selected for a key exactly when no highlight has that key |
| NotionProperties.OrganizeDomain | src/notion.ts:178-184 | a key has a group exactly when some highlight carries it |
| NotionProperties.OrganizeKeysPrefix | src/notion.ts:180-182 | grouping a prefix of the input yields a prefix of the keys, so keys come in order of first appearance |
| NotionProperties.TotalOutside | src/notion.ts:184 | changing the group of a key outside the list leaves the list's total unchanged |
| NotionProperties.TotalReplace | src/notion.ts:184 | replacing the group of a listed key changes the total by the difference in size |
| NotionProperties.OrganizeTotal | src/notion.ts:177-185 | the group sizes sum to the input length |
| NotionProperties.SplitKeys | src/notion.ts:89 | the array-index keys and the other keys together hold every group's highlights |
| NotionProperties.SplitKeysPermutation | src/notion.ts:89 | the array-index keys and the other keys together are the record's keys |
| NotionProperties.InsertKeeps | src/notion.ts:89 | placing a key in the numeric order adds exactly its group |
| NotionProperties.InsertPermutation | src/notion.ts:89 | placing a key in the numeric order adds exactly that key |
| NotionProperties.SortKeeps | src/notion.ts:89 | ordering the array-index keys keeps the total |
| NotionProperties.SortPermutation | src/notion.ts:89 | ordering the array-index keys is a permutation |
| NotionProperties.EntryOrderKeeps | src/notion.ts:89 | `Object.entries` walks a permutation of the keys, so it reaches every highlight |
| NotionProperties.InsertAscending | src/notion.ts:89 | placing a key keeps the numeric order ascending |
| NotionProperties.SortAscending | src/notion.ts:89 | the array-index keys come in ascending numeric order |
| NotionProperties.IndexKeysAll | src/notion.ts:89 | the first list holds only array-index keys and the second only other keys |
| NotionProperties.EntryOrderShape | src/notion.ts:89 | `Object.entries` yields the array-index keys first, ascending, then the other keys |
| NotionProperties.PlainKeys | src/notion.ts:89 | without array-index keys, the second list is the whole key list |
| NotionProperties.EntryOrderPlain | src/notion.ts:89 | without array-index keys, the sections come in insertion order |
| NotionProperties.NumberedSectionFirst | src/notion.ts:89 | a section named `"1"` is sent before an earlier section named `"Preface"` |
| NotionProperties.SplitKeysDistinct | src/notion.ts:89 | splitting distinct keys gives two lists of distinct keys |
| NotionProperties.InsertDistinct | src/notion.ts:89 | placing a new key keeps the keys distinct |
| NotionProperties.SortDistinct | src/notion.ts:89 | ordering distinct keys keeps them distinct |
| NotionProperties.EntryOrderDistinct | src/notion.ts:89 | `Object.entries` yields each key once |
| NotionProperties.EntryOrderNamed | src/notion.ts:89-91 | every key `Object.entries` yields has a group and a non-empty name |
| NotionProperties.BlocksShape | src/notion.ts:119-157 | each highlight yields exactly two blocks, a `heading_3` with its heading and then a paragraph with its text in its mapped colour |
| NotionProperties.BlocksAppend | src/notion.ts:119-157 | the blocks of two runs of highlights are the two runs' blocks in order |
| NotionProperties.FlattenAppend | src/notion.ts:160 | sending two runs of requests sends their blocks in order |
| NotionProperties.BatchesFlatten | src/notion.ts:114-115 | the batches, laid end to end, are the section's highlights |
| NotionProperties.BatchesSize | src/notion.ts:114-115 | no batch is empty or holds more than 45 highlights |
| NotionProperties.BatchRequestsContent | src/notion.ts:114-160 | the batch requests together carry the blocks of the batches' highlights |
| NotionProperties.BatchRequestsSize | src/notion.ts:114-160 | a batch request holds between 1 and 90 blocks |
| NotionProperties.SectionRequestsContent | src/notion.ts:91-164 | a section sends its `heading_2` exactly when its name is non-empty, then its highlights' blocks |
| NotionProperties.SectionRequestsBound | src/notion.ts:85-164 | every request of a section holds between 1 and 90 blocks |
| NotionProperties.RequestsFromContent | src/notion.ts:89-165 | with non-empty names, the requests carry a `heading_2` per section and then the section's blocks |
| NotionProperties.RequestsFromBound | src/notion.ts:89-165 | every request holds between 1 and 90 blocks |
| NotionProperties.PageContent | src/notion.ts:86-165 | the page receives a `heading_2` for every group, in `Object.entries` order, and then the group's blocks |
| NotionProperties.PageRequestsBound | src/notion.ts:85-165 | no request is empty or exceeds `MAX_BLOCKS_PER_REQUEST` |
| NotionProperties.ParagraphCountAppend | src/notion.ts:140-156 | paragraph counts add up over concatenation |
| NotionProperties.BlocksParagraphs | src/notion.ts:140-156 | a run of highlights yields one paragraph per highlight |
| NotionProperties.PageBlocksParagraphs | src/notion.ts:89-165 | the sections' blocks hold one paragraph per grouped highlight |
| NotionProperties.PageParagraphs | src/notion.ts:86-165 | the page receives exactly one paragraph per highlight of the book |
| NotionProperties.PrototypeSectionThrows | src/notion.ts:180-184 | a section named `constructor` makes the grouping as written throw, while the model files it |
| NotionProperties.AsWrittenAgrees | src/notion.ts:174-188 | the grouping as written throws exactly when some key is an inherited `Object.prototype` name, and otherwise equals the model |

## Left out

- `src/main.ts` is not part of this model. It covers Gmail polling, attachments, triggers, stored
  properties, the time budget and the size cap, which are all I/O orchestration.
- The HTTP side of `src/notion.ts` is left out: `UrlFetchApp.fetch`, JSON serialisation, response-code
  checks, the rethrowing `catch` blocks, the page id taken from the response, and the 500 ms
  `Utilities.sleep`. `Notion.CreateNotionPage` returns the properties and the `children` of each
  request in sending order instead of sending them.
- `logMessage` and every `console.log` are left out. They are a side channel.
- Exceptions in the extractor are left out. The string operations it uses cannot throw, so the
  per-tier `catch` blocks and the `解析エラー` record of `parseKindleHighlights` are unreachable and
  not modelled.
- Kindle-side string lengths: the tier-3 length test counts UTF-16 code units. `KindleSpec.Accept`
  counts the elements of `seq<char>`, so the two differ only for characters outside the Basic
  Multilingual Plane.
- Regular expressions are not modelled in general. Only the fixed patterns of `src/kindle-parser.ts`
  are, each as its own scan.
- The Notion request and block objects keep only what varies: the block kind, the text content and the
  colour. The constant fields (`object`, `type`, `rich_text` wrapping, heading colour `"default"`,
  `Notion-Version`) are left out.
- Notion.OrganizeHighlightsBySection: it follows the corrected grouping, which files a section named
  after an `Object.prototype` member like any other. The grouping as written is
  `Notion.OrganizeAsWritten` (see Findings).
- `src/main.test.ts` re-implements the patterns instead of calling the parser. Its examples are proved
  about the model's own functions instead: the colour and stripping examples as literal lemmas
  (`KindleProperties.ColorYellowExample`, `Markup.StripDivExample`, `Markup.StripSpanExample`), the
  pair and fallback examples through the general `KindleExtraction.Tier2Pairs` and
  `KindleExtraction.HighlightsBlockPairs`, of which they are instances.

## Findings

| source | as written | input that shows it | evidently intended | confidence | as-written member | corrected member |
|---|---|---|---|---|---|---|
| src/notion.ts:180-184 | `sections` is a plain `{}`. For a section name the object inherits from `Object.prototype` (`constructor`, `toString`, `__proto__`, …), `!sections[name]` is false, so no list is created and `.push` throws a `TypeError`. | one highlight with section `"constructor"` | every section name gets its own group | not executed | Notion.OrganizeAsWritten (shown by NotionProperties.PrototypeSectionThrows and NotionProperties.AsWrittenAgrees) | Notion.Organize (proved by NotionProperties.OrganizeWellFormed, NotionProperties.OrganizeSelect and NotionProperties.OrganizeTotal) |
