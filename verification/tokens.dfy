/** The document tree of src/tokens.rs. Text is kept as bytes: UTF-8 decoding is not modelled. */
module Tokens {
  import opened Core
  import opened Util

  /** `Inline`. */
  datatype Inline =
    | LineBreak
    | Chunk(text: Bytes)
    | Emphasis(content: Text)
    | MoreEmphasis(content: Text)
    | Code(code: Bytes)
    | InlineLink(linkText: Option<Text>, link: Bytes, title: Option<Bytes>)
    | ReferenceLink(refText: Bytes, id: Bytes)

  type Text = seq<Inline>

  /** `Block`; the list variants carry what src/parser/block/lists.rs builds. */
  datatype Block =
    | Heading(level: nat, content: Text)
    | BlockQuote(blocks: Document)
    | BlockCode(tag: Option<Bytes>, body: Bytes)
    | OrderedList(startIndex: nat, items: seq<Document>)
    | UnorderedList(items: seq<Document>)
    | Paragraph(text: Text)
    | HorizontalRule
    | LinkDefinition(id: Bytes, link: Bytes, title: Option<Bytes>)

  type Document = seq<Block>
}
