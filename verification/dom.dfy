/** The content objects the document helper produces. The tsumekusa DOM
    classes behind them (`InlineCode`, `Strong`, `List`, `List.ListItem`,
    `ElementArray`, and tsumekusa's own `Code`, which is not the jsdocref code
    of `Codes`) are not part of this model; each is represented by the data it
    is constructed from. Paragraphs are the paragraphs of `Paragraphs`. */
module Dom {
  import opened Wrappers
  import opened Doclets
  import Links
  import UnknownInlineTags
  import Paragraphs

  /** An inline content: a plain string, or an inline element. `InlineCode`
      may be built from the `null` text of a node, hence the option. A
      parameter term is the one built by the parameters definition. */
  datatype Inline =
    | Str(s: string)
    | InlineCode(code: Option<string>)
    | LinkTo(link: Links.Link)
    | Unknown(unknownTag: UnknownInlineTags.UnknownInlineTag)
    | ParamTerm(name: string, param: Tag)

  /** JavaScript truthiness of an inline content: only the empty string is falsy. */
  predicate TruthyInline(x: Inline) {
    !(x.Str? && x.s == "")
  }

  /** `List.ListType.UNORDERED` and `List.ListType.ORDERED`. */
  datatype ListKind = UnorderedList | OrderedList

  /** A block content returned by the block conversion. `b` and `code` produce
      `Strong` and `InlineCode` objects that stand in the block sequence. */
  datatype Block =
    | ParagraphBlock(paragraph: Paragraphs.Paragraph<Inline>)
    | ListBlock(kind: ListKind, items: seq<Block>)
    | ListItem(blocks: seq<Block>)
    | CodeBlock(code: string)
    | StrongBlock(strong: Option<string>)
    | InlineCodeBlock(inlineCode: Option<string>)

  /** `new Paragraph()` followed by adding every content in order. */
  function ParagraphOf(contents: seq<Inline>): (p: Paragraphs.Paragraph<Inline>)
    ensures Paragraphs.GetInlineContents(p) == contents
  {
    Paragraphs.AddInlineContents(Paragraphs.NewParagraph([], TruthyInline), contents)
  }
}
