/**
 * The page layout of src/notion.ts with the HTTP calls taken out: the colour map, the grouping of
 * highlights by section, the page properties, and the blocks `createNotionPage` sends, request by
 * request. Each function states what the layout is; each method is the source's loop that builds it.
 */
module Notion {
  import opened Wrappers
  import opened Strings
  import opened Types

  const UNCATEGORISED := "未分類"
  const DEFAULT_TITLE_PROPERTY := "Name"
  const DEFAULT_COLOR := "default"
  const MAX_BLOCKS_PER_REQUEST := 90
  /** `MAX_BLOCKS_PER_REQUEST / 2`: highlights per request, at two blocks each. */
  const BATCH_SIZE := MAX_BLOCKS_PER_REQUEST / 2

  // ---------------------------------------------------------------------------------------------
  // Colours

  /** The Kindle colours Notion has a background for. */
  predicate IsNotionColor(c: string) {
    c == "yellow" || c == "blue" || c == "pink" || c == "orange"
  }

  /** `mapHighlightColor`: the four Kindle colours become Notion backgrounds; anything else, and an
      absent colour, becomes `"default"`. */
  function MapHighlightColor(color: Option<string>): (r: string)
    ensures color.Some? && IsNotionColor(color.value) ==> r == color.value + "_background"
    ensures !(color.Some? && IsNotionColor(color.value)) ==> r == DEFAULT_COLOR
    ensures r == DEFAULT_COLOR <==> !(color.Some? && IsNotionColor(color.value))
  {
    match color
    case None => DEFAULT_COLOR
    case Some(c) =>
      if c == "yellow" then "yellow_background"
      else if c == "blue" then "blue_background"
      else if c == "pink" then "pink_background"
      else if c == "orange" then "orange_background"
      else DEFAULT_COLOR
  }

  // ---------------------------------------------------------------------------------------------
  // Grouping by section

  /** `highlight.section || '未分類'`: the key a highlight is filed under. */
  function SectionKey(h: Highlight): (k: string)
    ensures k != ""
  {
    if h.section != "" then h.section else UNCATEGORISED
  }

  /** The `Record<string, KindleHighlight[]>` being built: its keys in insertion order and its entries. */
  datatype Sections = Sections(keys: seq<string>, entries: map<string, seq<Highlight>>)

  /** One turn of the grouping loop: a key seen for the first time gets a fresh list, then the highlight
      is pushed onto its key's list. */
  function File(secs: Sections, h: Highlight): Sections {
    var k := SectionKey(h);
    if k in secs.entries then Sections(secs.keys, secs.entries[k := secs.entries[k] + [h]])
    else Sections(secs.keys + [k], secs.entries[k := [h]])
  }

  /** `organizeHighlightsBySection`: every highlight filed in turn, from an empty record. */
  function Organize(hs: seq<Highlight>): Sections
    decreases |hs|
  {
    if hs == [] then Sections([], map[]) else File(Organize(hs[..|hs| - 1]), hs[|hs| - 1])
  }

  /** The loop of `organizeHighlightsBySection`. */
  method OrganizeHighlightsBySection(highlights: seq<Highlight>) returns (sections: Sections)
    ensures sections == Organize(highlights)
  {
    sections := Sections([], map[]);
    for i := 0 to |highlights|
      invariant sections == Organize(highlights[..i])
    {
      var highlight := highlights[i];
      var sectionName := if highlight.section != "" then highlight.section else UNCATEGORISED;
      var keys := sections.keys;
      var entries := sections.entries;
      var list := [];
      if sectionName in entries {
        list := entries[sectionName];
      } else {
        keys := keys + [sectionName];
        assert list + [highlight] == [highlight];
      }
      entries := entries[sectionName := list + [highlight]];
      assert sectionName == SectionKey(highlight);
      assert Sections(keys, entries) == File(sections, highlight);
      assert highlights[..i + 1][..i] == highlights[..i];
      assert Organize(highlights[..i + 1]) == File(Organize(highlights[..i]), highlight);
      sections := Sections(keys, entries);
    }
    assert highlights[..|highlights|] == highlights;
  }

  /** The names a plain object literal `{}` inherits from `Object.prototype`. */
  const OBJECT_PROTOTYPE_KEYS: set<string> := {
    "constructor", "__defineGetter__", "__defineSetter__", "hasOwnProperty", "__lookupGetter__",
    "__lookupSetter__", "isPrototypeOf", "propertyIsEnumerable", "toString", "valueOf", "__proto__",
    "toLocaleString"
  }

  /** The grouping as written, with `sections` a plain `{}`: for a name it does not yet own but inherits,
      `sections[name]` is the inherited member, which is truthy, so the guard skips the fresh list and the
      `push` that follows throws a `TypeError` (`None` here). */
  function OrganizeAsWritten(hs: seq<Highlight>): Option<Sections>
    decreases |hs|
  {
    if hs == [] then Some(Sections([], map[]))
    else
      match OrganizeAsWritten(hs[..|hs| - 1])
      case None => None
      case Some(secs) =>
        var k := SectionKey(hs[|hs| - 1]);
        if k !in secs.entries && k in OBJECT_PROTOTYPE_KEYS then None else Some(File(secs, hs[|hs| - 1]))
  }

  // ---------------------------------------------------------------------------------------------
  // The order `Object.entries` lists the sections in

  predicate IsDigit(c: char) {
    '0' <= c <= '9'
  }

  /** The number a string of decimal digits denotes. */
  function DecimalValue(k: string): nat
    decreases |k|
  {
    if k == [] then 0 else 10 * DecimalValue(k[..|k| - 1]) + if IsDigit(k[|k| - 1]) then k[|k| - 1] as int - '0' as int else 0
  }

  /** A key that is an array index: the canonical decimal form of a number below 2^32 - 1. */
  predicate IsArrayIndex(k: string) {
    |k| > 0 && (forall i :: 0 <= i < |k| ==> IsDigit(k[i])) && (k[0] != '0' || |k| == 1)
    && DecimalValue(k) < 0xFFFF_FFFF
  }

  function IndexKeys(keys: seq<string>): seq<string>
    decreases |keys|
  {
    if keys == [] then []
    else IndexKeys(keys[..|keys| - 1]) + if IsArrayIndex(keys[|keys| - 1]) then [keys[|keys| - 1]] else []
  }

  function OtherKeys(keys: seq<string>): seq<string>
    decreases |keys|
  {
    if keys == [] then []
    else OtherKeys(keys[..|keys| - 1]) + if IsArrayIndex(keys[|keys| - 1]) then [] else [keys[|keys| - 1]]
  }

  /** `x` placed before the first key of `s` with a larger or equal value. */
  function InsertByValue(x: string, s: seq<string>): seq<string>
    decreases |s|
  {
    if s == [] || DecimalValue(x) <= DecimalValue(s[0]) then [x] + s else [s[0]] + InsertByValue(x, s[1..])
  }

  function SortByValue(s: seq<string>): seq<string>
    decreases |s|
  {
    if s == [] then [] else InsertByValue(s[0], SortByValue(s[1..]))
  }

  /** The own-property order of a plain object, which `Object.entries` follows: array-index keys first, in
      ascending numeric order, then every other key in insertion order. */
  function EntryOrder(keys: seq<string>): seq<string> {
    SortByValue(IndexKeys(keys)) + OtherKeys(keys)
  }

  // ---------------------------------------------------------------------------------------------
  // Page properties

  /** A page property: the `title` rich text of the title column, or the `rich_text` of the author column. */
  datatype Property = TitleProperty(content: string) | RichTextProperty(content: string)

  /** JavaScript truthiness of an optional string: present and non-empty. */
  predicate Truthy(s: Option<string>) {
    s.Some? && s.value != ""
  }

  /** `config.notionTitleProperty || 'Name'`. */
  function TitleKey(config: Config): (k: string)
    ensures Truthy(config.notionTitleProperty) ==> k == config.notionTitleProperty.value
    ensures !Truthy(config.notionTitleProperty) ==> k == DEFAULT_TITLE_PROPERTY
  {
    if Truthy(config.notionTitleProperty) then config.notionTitleProperty.value else DEFAULT_TITLE_PROPERTY
  }

  /** The author column is filled only when the book has authors and the column is configured. */
  predicate HasAuthorProperty(book: BookData, config: Config) {
    Truthy(book.authors) && Truthy(config.notionAuthorProperty)
  }

  /** The `properties` object of the page: the title under the title key, then the authors under the
      author key when both are set, overwriting the title if the two keys are the same. */
  function PageProperties(book: BookData, config: Config): (props: map<string, Property>)
    ensures HasAuthorProperty(book, config) ==>
      props.Keys == {TitleKey(config), config.notionAuthorProperty.value}
      && props[config.notionAuthorProperty.value] == RichTextProperty(book.authors.value)
      && (TitleKey(config) != config.notionAuthorProperty.value ==> props[TitleKey(config)] == TitleProperty(book.title))
    ensures !HasAuthorProperty(book, config) ==>
      props.Keys == {TitleKey(config)} && props[TitleKey(config)] == TitleProperty(book.title)
  {
    var props := map[TitleKey(config) := TitleProperty(book.title)];
    if HasAuthorProperty(book, config) then props[config.notionAuthorProperty.value := RichTextProperty(book.authors.value)]
    else props
  }

  // ---------------------------------------------------------------------------------------------
  // Blocks and requests

  /** The blocks the page receives; both heading kinds carry the colour `"default"`. */
  datatype Block = Heading2(content: string) | Heading3(content: string) | Paragraph(content: string, color: string)

  /** The two blocks of one highlight: its heading, then its text in its mapped colour. */
  function HighlightBlocks(h: Highlight): seq<Block> {
    [Heading3(h.heading), Paragraph(h.text, MapHighlightColor(h.highlightColor))]
  }

  function BlocksOf(hs: seq<Highlight>): seq<Block>
    decreases |hs|
  {
    if hs == [] then [] else BlocksOf(hs[..|hs| - 1]) + HighlightBlocks(hs[|hs| - 1])
  }

  /** The inner loop of `createNotionPage`: the blocks of one batch. */
  method BuildBatchBlocks(batchHighlights: seq<Highlight>) returns (batchBlocks: seq<Block>)
    ensures batchBlocks == BlocksOf(batchHighlights)
  {
    batchBlocks := [];
    for i := 0 to |batchHighlights|
      invariant batchBlocks == BlocksOf(batchHighlights[..i])
    {
      var highlight := batchHighlights[i];
      batchBlocks := batchBlocks + [Heading3(highlight.heading)];
      var backgroundColor := MapHighlightColor(highlight.highlightColor);
      batchBlocks := batchBlocks + [Paragraph(highlight.text, backgroundColor)];
      assert batchHighlights[..i + 1][..i] == batchHighlights[..i];
    }
    assert batchHighlights[..|batchHighlights|] == batchHighlights;
  }

  function Min(a: int, b: int): int {
    if a <= b then a else b
  }

  /** The batches from index `i` on: `slice(i, i + 45)`, then the batches from `i + 45`. */
  function BatchesFrom(hs: seq<Highlight>, i: nat): seq<seq<Highlight>>
    decreases |hs| - i
  {
    if i >= |hs| then [] else [hs[i..Min(i + BATCH_SIZE, |hs|)]] + BatchesFrom(hs, i + BATCH_SIZE)
  }

  function Batches(hs: seq<Highlight>): seq<seq<Highlight>> {
    BatchesFrom(hs, 0)
  }

  /** One request per batch, holding that batch's blocks. */
  function BatchRequests(batches: seq<seq<Highlight>>): seq<seq<Block>>
    decreases |batches|
  {
    if batches == [] then [] else [BlocksOf(batches[0])] + BatchRequests(batches[1..])
  }

  /** The requests of one section: its `heading_2` when the name is non-empty, then its batches. */
  function SectionRequests(name: string, hs: seq<Highlight>): seq<seq<Block>> {
    (if name != "" then [[Heading2(name)]] else []) + BatchRequests(Batches(hs))
  }

  function Entry(secs: Sections, k: string): seq<Highlight> {
    if k in secs.entries then secs.entries[k] else []
  }

  /** The requests of the sections named by `order` from its `j`-th key on. */
  function RequestsFrom(secs: Sections, order: seq<string>, j: nat): seq<seq<Block>>
    decreases |order| - j
  {
    if j >= |order| then []
    else SectionRequests(order[j], Entry(secs, order[j])) + RequestsFrom(secs, order, j + 1)
  }

  /** Every `appendBlocksToNotionPage` call of `createNotionPage`, in order, by its `children`. */
  function PageRequests(book: BookData): seq<seq<Block>> {
    var secs := Organize(book.highlights);
    RequestsFrom(secs, EntryOrder(secs.keys), 0)
  }

  lemma BatchesStep(hs: seq<Highlight>, i: nat)
    requires i < |hs|
    ensures BatchRequests(BatchesFrom(hs, i))
         == [BlocksOf(hs[i..Min(i + BATCH_SIZE, |hs|)])] + BatchRequests(BatchesFrom(hs, i + BATCH_SIZE))
  {
    var rest := BatchesFrom(hs, i + BATCH_SIZE);
    assert ([hs[i..Min(i + BATCH_SIZE, |hs|)]] + rest)[1..] == rest;
  }

  /** The batching loop of one section. */
  method AppendSectionBatches(sectionHighlights: seq<Highlight>, requests: seq<seq<Block>>) returns (out: seq<seq<Block>>)
    ensures out == requests + BatchRequests(Batches(sectionHighlights))
  {
    out := requests;
    AppendAssoc(requests, [], BatchRequests(BatchesFrom(sectionHighlights, 0)));
    var i := 0;
    while i < |sectionHighlights|
      invariant requests + BatchRequests(Batches(sectionHighlights)) == out + BatchRequests(BatchesFrom(sectionHighlights, i))
      decreases |sectionHighlights| - i
    {
      var batchHighlights := sectionHighlights[i..Min(i + BATCH_SIZE, |sectionHighlights|)];
      var batchBlocks := BuildBatchBlocks(batchHighlights);
      BatchesStep(sectionHighlights, i);
      AppendAssoc(out, [batchBlocks], BatchRequests(BatchesFrom(sectionHighlights, i + BATCH_SIZE)));
      out := out + [batchBlocks];
      i := i + BATCH_SIZE;
    }
    AppendAssoc(out, [], []);
  }

  /** `createNotionPage` without its HTTP calls: the page properties of the initial request, and the
      `children` of every later request in the order they are sent. */
  method CreateNotionPage(bookData: BookData, config: Config) returns (properties: map<string, Property>, requests: seq<seq<Block>>)
    ensures properties == PageProperties(bookData, config)
    ensures requests == PageRequests(bookData)
  {
    properties := map[TitleKey(config) := TitleProperty(bookData.title)];
    if Truthy(bookData.authors) && Truthy(config.notionAuthorProperty) {
      properties := properties[config.notionAuthorProperty.value := RichTextProperty(bookData.authors.value)];
    }
    var sections := OrganizeHighlightsBySection(bookData.highlights);
    var entries := EntryOrder(sections.keys);
    requests := [];
    AppendAssoc([], [], RequestsFrom(sections, entries, 0));
    var j := 0;
    while j < |entries|
      invariant j <= |entries|
      invariant PageRequests(bookData) == requests + RequestsFrom(sections, entries, j)
    {
      var sectionName := entries[j];
      var sectionHighlights := Entry(sections, sectionName);
      var heading := if sectionName != "" then [[Heading2(sectionName)]] else [];
      ghost var rest := RequestsFrom(sections, entries, j + 1);
      AppendAssoc(requests, SectionRequests(sectionName, sectionHighlights), rest);
      AppendAssoc(requests, heading, BatchRequests(Batches(sectionHighlights)));
      requests := requests + heading;
      requests := AppendSectionBatches(sectionHighlights, requests);
      j := j + 1;
    }
    AppendAssoc(requests, [], []);
  }
}
