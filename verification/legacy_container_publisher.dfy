/** `jsdocref/publishing/VimHelpContainerPublisher.js` (the earlier generation):
    header, top content, sub contents and footer of a container, joined with
    newlines, with the sub-containers published recursively by the same
    publisher. The text width is `jsdocref.TEXT_WIDTH`, a parameter here. */
module LegacyVimHelpContainers {
  import opened Wrappers
  import opened JsStrings
  import opened ContainerTrees

  const Separators: string := "=-"

  /** A container as this publisher reads it: caption, the published form of
      its tag, the published form of its top content (`None` when there is no
      top content), and its sub-containers. */
  datatype Container = Container(caption: string, publishedTag: string,
                                 topContent: Option<string>, subContents: seq<Container>)

  /** `createIndex(container)`: at depth one (and zero) the label is the DEPTH
      followed by `.`, whatever the sibling position; deeper it is the dotted
      number of ancestors and self. */
  function CreateIndex(p: Position): (r: string)
    ensures p.depth <= 1 ==> r == [if p.depth == 0 then '0' else '1'] + "."
    ensures WellFormed(p) && p.depth > 1 ==> |r| >= 3 && IsDigit(r[|r| - 1]) && '.' in r
  {
    if p.depth > 1 then
      if WellFormed(p) then
        DottedIndexShape(p);
        DottedIndex(p)
      else DottedIndex(p)
    else
      NatToString(p.depth) + "."
  }

  /** Every top-level section is labelled `1.`: the sibling index plays no part. */
  lemma TopLevelSectionsAllOne(rootIndex: nat, i: nat, j: nat)
    ensures CreateIndex(Follow(RootPosition(rootIndex), [i])) == "1."
    ensures CreateIndex(Follow(RootPosition(rootIndex), [i]))
         == CreateIndex(Follow(RootPosition(rootIndex), [j]))
  {
    FollowShape(RootPosition(rootIndex), [i]);
    FollowShape(RootPosition(rootIndex), [j]);
  }

  /** Below the top level the label is the section's path label. */
  lemma CreateIndexIsPathLabelBelowTop(rootIndex: nat, path: seq<nat>)
    requires |path| >= 2
    ensures CreateIndex(Follow(RootPosition(rootIndex), path)) == PathLabel(path)
  {
    FollowShape(RootPosition(rootIndex), path);
    DottedIndexIsPathLabel(rootIndex, path);
  }

  /** `createSubContentSeparator(container)`: a rule of `=` (document level) or
      `-` (first level) as wide as the text, then a newline; deeper, just the
      newline. */
  function CreateSubContentSeparator(depth: nat, width: nat): (r: string)
    ensures depth >= |Separators| ==> r == "\n"
    ensures depth < |Separators| ==>
              && |r| == width + 1 && r[width] == '\n'
              && forall i :: 0 <= i < width ==> r[i] == (if depth == 0 then '=' else '-')
  {
    (if depth >= |Separators| then "" else Repeat(Separators[depth], width)) + "\n"
  }

  /** `createHeader(container)`: `fillMiddle(index + ' ' + caption, tag, width)`. */
  function CreateHeader(p: Position, caption: string, publishedTag: string, width: nat): (r: string)
    ensures var head := CreateIndex(p) + " " + caption;
            && |r| >= |head| + |publishedTag| && |r| >= width
            && r[..|head|] == head
            && r[|r| - |publishedTag|..] == publishedTag
  {
    FillMiddle(CreateIndex(p) + " " + caption, publishedTag, width)
  }

  /** `createFooter(container)`: always `null`. */
  function CreateFooter(c: Container): (r: Option<string>)
    ensures r.None?
  {
    None
  }

  /** Reference definition: every piece preceded by the separator. */
  function PrefixEach(sep: string, xs: seq<string>): string {
    if |xs| == 0 then "" else sep + xs[0] + PrefixEach(sep, xs[1..])
  }

  lemma {:induction false} SeparatorThenJoin(sep: string, xs: seq<string>)
    requires |xs| >= 1
    ensures sep + Join(xs, sep) == PrefixEach(sep, xs)
  {
    if |xs| > 1 {
      SeparatorThenJoin(sep, xs[1..]);
    }
  }

  function SumLengths(xs: seq<string>): nat {
    if |xs| == 0 then 0 else |xs[0]| + SumLengths(xs[1..])
  }

  /** `k` pieces produce exactly `k` separators: the length is `k` separators
      plus the pieces. */
  lemma {:induction false} PrefixEachLength(sep: string, xs: seq<string>)
    ensures |PrefixEach(sep, xs)| == |xs| * |sep| + SumLengths(xs)
  {
    if |xs| > 0 {
      PrefixEachLength(sep, xs[1..]);
    }
  }

  /** `createSubContents(container)` on the published sub-containers: `null`
      when there are none, otherwise the separator followed by the pieces
      joined with the separator, i.e. every piece preceded by a separator. */
  function CreateSubContents(sep: string, subStrings: seq<string>): (r: Option<string>)
    ensures r.None? <==> |subStrings| == 0
    ensures r.Some? ==> r.value == PrefixEach(sep, subStrings)
  {
    if |subStrings| > 0 then
      SeparatorThenJoin(sep, subStrings);
      Some(sep + Join(subStrings, sep))
    else None
  }

  /** The top-content slot of `publish`: the published top content when it is
      truthy, `''` otherwise; the slot is always present. */
  function TopSlot(c: Container): string {
    match c.topContent
    case Some(s) => if s != "" then s else ""
    case None => ""
  }

  /** `publish(container)`: header, top content (or `''`), sub contents when
      there are any, footer when truthy, joined with `\n`. */
  function Publish(c: Container, p: Position, width: nat): (r: string)
    ensures var header := CreateHeader(p, c.caption, c.publishedTag, width);
            var subs := PublishSubContents(c, p, width);
            && (|c.subContents| == 0 ==> r == header + "\n" + TopSlot(c))
            && (|c.subContents| > 0 ==>
                  r == header + "\n" + TopSlot(c) + "\n"
                       + PrefixEach(CreateSubContentSeparator(p.depth, width), subs))
    decreases c, 1
  {
    var header := CreateHeader(p, c.caption, c.publishedTag, width);
    var subContents := CreateSubContents(CreateSubContentSeparator(p.depth, width),
                                         PublishSubContents(c, p, width));
    var footer := CreateFooter(c);
    var output := (if header != "" then [header] else [])
                  + [TopSlot(c)]
                  + (if subContents.Some? && subContents.value != "" then [subContents.value] else [])
                  + (match footer case Some(f) => if f != "" then [f] else [] case None => []);
    JoinWithNewlines(output, header, c, subContents);
    Join(output, "\n")
  }

  /** `createSubContentsInternal(container)`: each sub-container published at
      its own position. */
  function PublishSubContents(c: Container, p: Position, width: nat): (r: seq<string>)
    ensures |r| == |c.subContents|
    decreases c, 0
  {
    seq(|c.subContents|, i requires 0 <= i < |c.subContents| =>
      Publish(c.subContents[i], ChildPosition(p, i), width))
  }

  lemma JoinWithNewlines(output: seq<string>, header: string, c: Container, subContents: Option<string>)
    requires header != ""
    requires subContents.None? ==> |c.subContents| == 0
    requires output == [header] + [TopSlot(c)]
                       + (if subContents.Some? && subContents.value != "" then [subContents.value] else [])
    ensures subContents.None? ==> Join(output, "\n") == header + "\n" + TopSlot(c)
    ensures subContents.Some? && subContents.value != "" ==>
              Join(output, "\n") == header + "\n" + TopSlot(c) + "\n" + subContents.value
  {
    if subContents.Some? && subContents.value != "" {
      var v := subContents.value;
      assert output == [header, TopSlot(c), v];
      assert output[1..] == [TopSlot(c), v];
      assert Join(output[1..], "\n") == TopSlot(c) + "\n" + v by {
        assert output[1..][1..] == [v];
      }
    }
  }
}
