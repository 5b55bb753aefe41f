/** The collaborators the JSDoc definitions and digests call. In the source
    they are reached through `DocElement` (the document helper and reference
    helper it holds), through global flags and constants of the `tsumekusaJsdoc`
    namespace, and through the `InlineCode` and `Type` publishers; none of
    those sources is part of this model. Here they are one explicit record. */
module DocElements {
  import opened Wrappers
  import opened Doclets
  import opened Dom
  import TagTrees
  import BlockConversion
  import InlineTags

  /** - `htmlParse`: the events htmlparser2 delivers for a string;
      - `htmlDisabled`, `inlineTagDisabled`: `tsumekusaJsdoc.HTML_DISABLED` and
        `tsumekusaJsdoc.INLINE_TAG_DISABLED`;
      - `noDescription`: `tsumekusaJsdoc.NO_DESCRIPTION`;
      - `decorateParamName`: `tsumekusaJsdoc.decorateParamName(tag)`;
      - `publishCode`: `new InlineCode(s).publish()`;
      - `publishType`: `new Type(tag).publish()`. */
  datatype Helpers = Helpers(
    htmlParse: string -> seq<TagTrees.Event>,
    htmlDisabled: bool,
    inlineTagDisabled: bool,
    noDescription: string,
    decorateParamName: Tag -> string,
    publishCode: string -> string,
    publishType: Tag -> string)

  /** `docHelper.parseBlocks(str, symbol)` with the helper's flags and the
      parser's events for `str`: one paragraph of inline contents when HTML is
      disabled, the converted tree otherwise. */
  function ParseBlocks(h: Helpers, str: string, symbol: Doclet): (r: Result<seq<Block>, string>)
    ensures h.htmlDisabled ==>
              r == Success([ParagraphBlock(ParagraphOf(InlineTags.ParseInlineTags(str, Some(symbol), h.inlineTagDisabled)))])
    ensures !h.htmlDisabled && TagTrees.BuildTree(h.htmlParse(str)).Failure? ==> r.Failure?
  {
    BlockConversion.ParseBlocks(str, h.htmlParse(str), Some(symbol), h.htmlDisabled, h.inlineTagDisabled)
  }
}
