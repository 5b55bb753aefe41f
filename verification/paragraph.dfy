/** `tsumekusa/dom/Paragraph.js`: a paragraph is a thin layer over a
    `ContentArray` of inline contents (inline content objects or strings).
    The element type is a parameter, with its JavaScript truthiness, because
    the constructor and `removeInlineContentAt` test truthiness. The chainable
    methods that return `this` return the updated paragraph here. */
module Paragraphs {
  import opened Wrappers
  import CA = ContentArrays

  datatype Paragraph<T> = Paragraph(inlineContents: CA.ContentArray<T>)

  /** `getInlineContents()`: the current ordered inline contents. */
  function GetInlineContents<T>(p: Paragraph<T>): seq<T> {
    CA.GetChildren(p.inlineContents)
  }

  /** `addInlineContent(content)`: appends at the end. */
  function AddInlineContent<T>(p: Paragraph<T>, content: T): (r: Paragraph<T>)
    ensures GetInlineContents(r) == GetInlineContents(p) + [content]
  {
    Paragraph(CA.AddChild(p.inlineContents, content))
  }

  /** `addInlineContents(contents)`: `addInlineContent` on each element, in order. */
  function AddInlineContents<T>(p: Paragraph<T>, contents: seq<T>): (r: Paragraph<T>)
    ensures GetInlineContents(r) == GetInlineContents(p) + contents
    decreases |contents|
  {
    if |contents| == 0 then p
    else
      var r := AddInlineContents(AddInlineContent(p, contents[0]), contents[1..]);
      assert [contents[0]] + contents[1..] == contents;
      r
  }

  /** `new Paragraph(var_args)`: every argument is appended, in order, but only
      when the first argument is truthy (no argument counts as `undefined`). */
  function NewParagraph<T>(args: seq<T>, truthy: T -> bool): (r: Paragraph<T>)
    ensures |args| > 0 && truthy(args[0]) ==> GetInlineContents(r) == args
    ensures !(|args| > 0 && truthy(args[0])) ==> GetInlineContents(r) == []
  {
    var empty := Paragraph(CA.Empty());
    if |args| > 0 && truthy(args[0]) then AddInlineContents(empty, args) else empty
  }

  /** `addInlineContentAt(content, index)`: splice insertion. */
  function AddInlineContentAt<T>(p: Paragraph<T>, content: T, index: int): (r: Paragraph<T>)
    ensures |GetInlineContents(r)| == |GetInlineContents(p)| + 1
    ensures 0 <= index <= |GetInlineContents(p)| ==>
              GetInlineContents(r) == GetInlineContents(p)[..index] + [content] + GetInlineContents(p)[index..]
    ensures var k := CA.SpliceStart(|GetInlineContents(p)|, index);
            GetInlineContents(r) == GetInlineContents(p)[..k] + [content] + GetInlineContents(p)[k..]
  {
    var r := Paragraph(CA.AddChildAt(p.inlineContents, content, index));
    assert GetInlineContents(r) == GetInlineContents(r)[..CA.SpliceStart(|GetInlineContents(p)|, index)]
      + [content] + GetInlineContents(r)[CA.SpliceStart(|GetInlineContents(p)|, index) + 1..];
    r
  }

  /** `removeInlineContent(content)`: the array's `removeChild`: the first
      occurrence of a truthy content goes; otherwise `None` and no change. */
  function RemoveInlineContent<T(==)>(p: Paragraph<T>, content: T, truthy: T -> bool): (r: (Paragraph<T>, Option<T>))
    ensures content in GetInlineContents(p) && truthy(content) ==>
              r == (Paragraph(CA.ContentArray(CA.RemoveFirst(GetInlineContents(p), content))), Some(content))
    ensures !(content in GetInlineContents(p) && truthy(content)) ==> r == (p, None)
  {
    var removal := CA.RemoveChild(p.inlineContents, content, truthy);
    (Paragraph(removal.after), removal.removed)
  }

  /** `removeInlineContentAt(index)`: the array's `removeChildAt`. */
  function RemoveInlineContentAt<T>(p: Paragraph<T>, index: int, truthy: T -> bool): (r: (Paragraph<T>, Option<T>))
    ensures var s := GetInlineContents(p);
            if 0 <= index < |s| && truthy(s[index])
            then r == (Paragraph(CA.ContentArray(s[..index] + s[index + 1..])), Some(s[index]))
            else r == (p, None)
  {
    var removal := CA.RemoveChildAt(p.inlineContents, index, truthy);
    (Paragraph(removal.after), removal.removed)
  }

  /** Adding the contents one at a time equals adding them all at once, and the
      two are related by concatenation: adding `xs` then `ys` is adding `xs + ys`. */
  lemma AddInlineContentsConcat<T>(p: Paragraph<T>, xs: seq<T>, ys: seq<T>)
    ensures AddInlineContents(AddInlineContents(p, xs), ys) == AddInlineContents(p, xs + ys)
  {
    ContentsDetermineParagraph(AddInlineContents(AddInlineContents(p, xs), ys), AddInlineContents(p, xs + ys));
  }

  /** A paragraph is determined by its inline contents. */
  lemma ContentsDetermineParagraph<T>(p: Paragraph<T>, q: Paragraph<T>)
    requires GetInlineContents(p) == GetInlineContents(q)
    ensures p == q
  {
  }
}
