/** `lib/dom/UnknownInlineTag.js`: an inline tag whose name the document helper
    does not know, kept with its content and the doclet it came from, and its
    publisher, which passes the content through and warns. */
module UnknownInlineTags {
  import opened Wrappers
  import opened Doclets

  datatype UnknownInlineTag = UnknownInlineTag(tagType: string, content: string, current: Option<Doclet>)

  /** `new UnknownInlineTag(type, content, opt_current)`: type and content as
      given; `opt_current || null`, and a doclet object is always truthy. */
  function NewUnknownInlineTag(tagType: string, content: string, optCurrent: Option<Doclet>): (t: UnknownInlineTag)
    ensures t.tagType == tagType && t.content == content && t.current == optCurrent
    ensures IsUnknown(t)
  {
    UnknownInlineTag(tagType, content, optCurrent)
  }

  /** The prototype's `unknown` flag, shared by every instance. */
  predicate IsUnknown(t: UnknownInlineTag) {
    true
  }

  /** What `UnknownInlineTagPublisher.publish` writes and what it warns. */
  datatype Published = Published(text: string, warning: string)

  const WarningPrefix: string := "Unknown tag is found. The type is: \""
  const WarningMiddle: string := "\", and the content is: \""

  /** The warning names the type and then the content, each between double
      quotes. */
  function Warning(tagType: string, content: string): (w: string)
    ensures |w| == |WarningPrefix| + |tagType| + |WarningMiddle| + |content| + 1
    ensures w[..|WarningPrefix|] == WarningPrefix
    ensures w[|WarningPrefix|..|WarningPrefix| + |tagType|] == tagType
    ensures w[|w| - |content| - 1..|w| - 1] == content
    ensures w[|w| - 1] == '"'
  {
    WarningPrefix + tagType + WarningMiddle + content + "\""
  }

  /** `UnknownInlineTagPublisher.publish(tag)`: the content alone (name, `@`
      and braces are gone), with a warning instead of a failure. */
  function Publish(t: UnknownInlineTag): (r: Published)
    ensures r.text == t.content
    ensures r.warning == Warning(t.tagType, t.content)
  {
    Published(t.content, Warning(t.tagType, t.content))
  }
}
