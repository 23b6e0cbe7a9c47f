/** The records of src/types.ts; optional (`?:`) fields become `Option`. */
module Types {
  import opened Wrappers

  /** `KindleHighlight`: one highlighted passage. */
  datatype Highlight = Highlight(section: string, heading: string, text: string, highlightColor: Option<string>)

  /** `BookData`: what the parser hands to the publisher. */
  datatype BookData = BookData(title: string, authors: Option<string>, highlights: seq<Highlight>)

  /** `Config`: the script's settings; only the two property names shape a page. */
  datatype Config = Config(
    notionToken: string,
    notionDatabaseId: string,
    gmailLabel: string,
    notionTitleProperty: Option<string>,
    notionAuthorProperty: Option<string>)
}
