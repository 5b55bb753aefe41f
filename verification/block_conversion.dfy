/** Turning the helper's tree into block contents (`lib/dom/DocHelper.js`,
    `createBlockElementByNode` and `parseBlocks`).

    Node names are compared in lower case. `ul`, `ol` and `li` convert their
    children and keep the non-null ones; `pre`, `b` and `code` read the text of
    their first child; `text` nodes holding more than white space become
    paragraphs of inline contents; every other node, with everything below it,
    gives `null`. Reading the first child of a node that has none, or calling
    `replace` on a `null` text, throws a `TypeError` in JavaScript; here it is a
    `Failure`, and a failure anywhere ends the whole conversion. */
module BlockConversion {
  import opened Wrappers
  import opened JsStrings
  import opened Dom
  import opened TagTrees
  import Doclets
  import Codes
  import InlineTags
  import EntityDecoding

  /** `childNodes[0].getValue()` on a node without children. */
  const NoFirstChild: string := "TypeError: the node has no first child"
  /** `.replace(...)` on the `null` text of an element node. */
  const NullText: string := "TypeError: the text of the first child is null"

  /** `replace(/^\n/, '')`: one leading newline goes. */
  function DropLeadingNewline(s: string): (r: string)
    ensures |s| > 0 && s[0] == '\n' ==> r == s[1..]
    ensures !(|s| > 0 && s[0] == '\n') ==> r == s
  {
    if |s| > 0 && s[0] == '\n' then s[1..] else s
  }

  /** `replace(/\n$/, '')`: one trailing newline goes (`$` matches only at the
      end of the text, as the pattern has no `m` flag). */
  function DropTrailingNewline(s: string): (r: string)
    ensures Codes.EndsWithNewline(s) ==> r == s[..|s| - 1]
    ensures !Codes.EndsWithNewline(s) ==> r == s
  {
    if Codes.EndsWithNewline(s) then s[..|s| - 1] else s
  }

  /** The text of a `pre` element: at most one newline goes at each end. */
  function PreformattedText(s: string): (r: string)
    ensures |r| <= |s| && |s| - |r| <= 2
    ensures |s| >= 2 && s[0] == '\n' && s[|s| - 1] == '\n' ==> r == s[1..|s| - 1]
    ensures |s| > 0 && s[0] != '\n' && s[|s| - 1] != '\n' ==> r == s
    ensures s == "\n" ==> r == ""
  {
    DropTrailingNewline(DropLeadingNewline(s))
  }

  /** The first child's text, or the `TypeError` of reading it. */
  function FirstChildText(node: TreeNode): (r: Result<Option<string>, string>)
    ensures |node.children| == 0 <==> r == Failure(NoFirstChild)
    ensures |node.children| > 0 ==> r == Success(node.children[0].value.text)
  {
    if |node.children| == 0 then Failure(NoFirstChild) else Success(node.children[0].value.text)
  }

  /** The cases of the `switch` on the lower-cased node name. */
  datatype NodeKind = UlNode | OlNode | LiNode | PreNode | BNode | CodeNode | TextNode | OtherNode

  /** The case a node name selects: the name is lower-cased first, so the
      comparison ignores case. */
  function KindOf(name: string): (k: NodeKind)
    ensures k == UlNode <==> KeywordLowerString(name) == "ul"
    ensures k == OlNode <==> KeywordLowerString(name) == "ol"
    ensures k == LiNode <==> KeywordLowerString(name) == "li"
    ensures k == PreNode <==> KeywordLowerString(name) == "pre"
    ensures k == BNode <==> KeywordLowerString(name) == "b"
    ensures k == CodeNode <==> KeywordLowerString(name) == "code"
    ensures k == TextNode <==> KeywordLowerString(name) == "text"
    ensures k == OtherNode <==> KeywordLowerString(name) !in ["ul", "ol", "li", "pre", "b", "code", "text"]
  {
    var lower := KeywordLowerString(name);
    if lower == "ul" then UlNode
    else if lower == "ol" then OlNode
    else if lower == "li" then LiNode
    else if lower == "pre" then PreNode
    else if lower == "b" then BNode
    else if lower == "code" then CodeNode
    else if lower == "text" then TextNode
    else OtherNode
  }

  /** `createBlockElementByNode(node, opt_current)`: `Success(None)` is the
      `null` result. */
  function CreateBlock(node: TreeNode, current: Option<Doclets.Doclet>, inlineTagDisabled: bool)
    : (r: Result<Option<Block>, string>)
    decreases node, 1
    ensures KindOf(node.value.name) == OtherNode ==> r == Success(None)
    ensures KindOf(node.value.name) in {PreNode, BNode, CodeNode} && |node.children| == 0
            ==> r == Failure(NoFirstChild)
    ensures KindOf(node.value.name) == TextNode
            ==> r.Success? && (r.value.Some? <==> Truthy(node.value.text) && !AllSpace(node.value.text.value))
    ensures r.Success? && r.value.Some? && r.value.value.ParagraphBlock?
            ==> KindOf(node.value.name) == TextNode
  {
    var kind := KindOf(node.value.name);
    if kind in {UlNode, OlNode, LiNode} then
      match ConvertChildren(node.children, current, inlineTagDisabled)
      case Failure(e) => Failure(e)
      case Success(blocks) =>
        if kind == UlNode then Success(Some(ListBlock(UnorderedList, blocks)))
        else if kind == OlNode then Success(Some(ListBlock(OrderedList, blocks)))
        else Success(Some(ListItem(blocks)))
    else if kind == PreNode then
      match FirstChildText(node)
      case Failure(e) => Failure(e)
      case Success(None) => Failure(NullText)
      case Success(Some(t)) => Success(Some(CodeBlock(PreformattedText(t))))
    else if kind == BNode then
      match FirstChildText(node)
      case Failure(e) => Failure(e)
      case Success(t) => Success(Some(StrongBlock(t)))
    else if kind == CodeNode then
      match FirstChildText(node)
      case Failure(e) => Failure(e)
      case Success(t) => Success(Some(InlineCodeBlock(t)))
    else if kind == TextNode then
      if Truthy(node.value.text) && !AllSpace(node.value.text.value) then
        Success(Some(ParagraphBlock(ParagraphOf(
          InlineTags.ParseInlineTags(node.value.text.value, current, inlineTagDisabled)))))
      else Success(None)
    else Success(None)
  }

  /** Converting the children in order and keeping the non-null blocks; the
      first failure is the result. */
  function ConvertChildren(children: seq<TreeNode>, current: Option<Doclets.Doclet>, inlineTagDisabled: bool)
    : (r: Result<seq<Block>, string>)
    decreases children, 0
    ensures r.Success? ==> |r.value| <= |children|
  {
    if |children| == 0 then Success([])
    else
      Combine(CreateBlock(children[0], current, inlineTagDisabled),
              ConvertChildren(children[1..], current, inlineTagDisabled))
  }

  /** A non-null block is kept; `null` is skipped. */
  function KeepBlock(b: Option<Block>): (r: seq<Block>)
    ensures |r| <= 1
  {
    match b
    case Some(block) => [block]
    case None => []
  }

  /** One child's result before the rest's: the first failure wins. */
  function Combine(head: Result<Option<Block>, string>, tail: Result<seq<Block>, string>)
    : (r: Result<seq<Block>, string>)
    ensures r.Failure? <==> head.Failure? || tail.Failure?
    ensures head.Failure? ==> r == Failure(head.error)
    ensures r.Success? ==> |r.value| <= |tail.value| + 1
  {
    if head.Failure? then Failure(head.error)
    else if tail.Failure? then Failure(tail.error)
    else Success(KeepBlock(head.value) + tail.value)
  }

  /** Two runs' results one after the other: the first failure wins. */
  function Join(ra: Result<seq<Block>, string>, rb: Result<seq<Block>, string>)
    : (r: Result<seq<Block>, string>)
    ensures r.Failure? <==> ra.Failure? || rb.Failure?
    ensures r.Success? ==> |r.value| == |ra.value| + |rb.value|
    ensures r.Success? ==> r.value[..|ra.value|] == ra.value && r.value[|ra.value|..] == rb.value
  {
    if ra.Failure? then ra
    else if rb.Failure? then rb
    else Success(ra.value + rb.value)
  }

  lemma CombineJoin(head: Result<Option<Block>, string>, tail: Result<seq<Block>, string>,
                    rb: Result<seq<Block>, string>)
    ensures Combine(head, Join(tail, rb)) == Join(Combine(head, tail), rb)
  {
    if head.Success? && tail.Success? && rb.Success? {
      assert KeepBlock(head.value) + (tail.value + rb.value) == (KeepBlock(head.value) + tail.value) + rb.value;
    }
  }

  /** The children's results, each on its own. */
  function ChildResults(children: seq<TreeNode>, current: Option<Doclets.Doclet>, inlineTagDisabled: bool)
    : (rs: seq<Result<Option<Block>, string>>)
    ensures |rs| == |children|
    ensures forall i :: 0 <= i < |children| ==> rs[i] == CreateBlock(children[i], current, inlineTagDisabled)
  {
    seq(|children|, i requires 0 <= i < |children| => CreateBlock(children[i], current, inlineTagDisabled))
  }

  /** Results combined in order. */
  function CombineAll(rs: seq<Result<Option<Block>, string>>): Result<seq<Block>, string> {
    if |rs| == 0 then Success([]) else Combine(rs[0], CombineAll(rs[1..]))
  }

  lemma {:induction false} ConvertChildrenCombinesAll(children: seq<TreeNode>,
                                                      current: Option<Doclets.Doclet>, inlineTagDisabled: bool)
    ensures ConvertChildren(children, current, inlineTagDisabled)
            == CombineAll(ChildResults(children, current, inlineTagDisabled))
    decreases |children|
  {
    if |children| > 0 {
      ConvertChildrenCombinesAll(children[1..], current, inlineTagDisabled);
      assert ChildResults(children, current, inlineTagDisabled)[1..]
             == ChildResults(children[1..], current, inlineTagDisabled);
    }
  }

  lemma {:induction false} CombineAllFailsIff(rs: seq<Result<Option<Block>, string>>)
    ensures CombineAll(rs).Failure? <==> exists i :: 0 <= i < |rs| && rs[i].Failure?
    decreases |rs|
  {
    if |rs| > 0 {
      CombineAllFailsIff(rs[1..]);
      if CombineAll(rs[1..]).Failure? {
        var i :| 0 <= i < |rs[1..]| && rs[1..][i].Failure?;
        assert rs[i + 1].Failure?;
      }
      if exists i :: 1 <= i < |rs| && rs[i].Failure? {
        var i :| 1 <= i < |rs| && rs[i].Failure?;
        assert rs[1..][i - 1].Failure?;
      }
    }
  }

  /** The reference reading of successful results: the non-null blocks, in
      order. */
  function Kept(rs: seq<Result<Option<Block>, string>>): seq<Block>
    requires forall i :: 0 <= i < |rs| ==> rs[i].Success?
  {
    if |rs| == 0 then [] else KeepBlock(rs[0].value) + Kept(rs[1..])
  }

  lemma {:induction false} CombineAllKept(rs: seq<Result<Option<Block>, string>>)
    requires forall i :: 0 <= i < |rs| ==> rs[i].Success?
    ensures CombineAll(rs) == Success(Kept(rs))
    decreases |rs|
  {
    if |rs| > 0 {
      assert forall i :: 0 <= i < |rs[1..]| ==> rs[1..][i] == rs[i + 1];
      CombineAllKept(rs[1..]);
    }
  }

  /** When every child converts, `ul` and `ol` give an unordered or ordered
      list and `li` a list item, holding exactly the non-null blocks of the
      children, in order. */
  lemma ListOfConvertedChildren(node: TreeNode, current: Option<Doclets.Doclet>, inlineTagDisabled: bool)
    requires KindOf(node.value.name) in {UlNode, OlNode, LiNode}
    requires forall i :: 0 <= i < |node.children| ==> CreateBlock(node.children[i], current, inlineTagDisabled).Success?
    ensures var items := Kept(ChildResults(node.children, current, inlineTagDisabled));
            var kind := KindOf(node.value.name);
            CreateBlock(node, current, inlineTagDisabled)
            == Success(Some(if kind == UlNode then ListBlock(UnorderedList, items)
                            else if kind == OlNode then ListBlock(OrderedList, items)
                            else ListItem(items)))
  {
    var rs := ChildResults(node.children, current, inlineTagDisabled);
    ConvertChildrenCombinesAll(node.children, current, inlineTagDisabled);
    CombineAllKept(rs);
  }

  /** The conversion fails exactly when one of the children fails. */
  lemma ConvertChildrenFailsIff(children: seq<TreeNode>, current: Option<Doclets.Doclet>, inlineTagDisabled: bool)
    ensures ConvertChildren(children, current, inlineTagDisabled).Failure?
            <==> exists i :: 0 <= i < |children| && CreateBlock(children[i], current, inlineTagDisabled).Failure?
  {
    var rs := ChildResults(children, current, inlineTagDisabled);
    ConvertChildrenCombinesAll(children, current, inlineTagDisabled);
    CombineAllFailsIff(rs);
  }

  /** Converting two runs of children one after the other is converting them
      together: the first run's failure wins, and the blocks are concatenated. */
  lemma {:induction false} ConvertChildrenConcat(a: seq<TreeNode>, b: seq<TreeNode>,
                                                 current: Option<Doclets.Doclet>, inlineTagDisabled: bool)
    ensures ConvertChildren(a + b, current, inlineTagDisabled)
            == Join(ConvertChildren(a, current, inlineTagDisabled), ConvertChildren(b, current, inlineTagDisabled))
    decreases |a|
  {
    if |a| == 0 {
      assert a + b == b;
    } else {
      var ab := a + b;
      assert ab[0] == a[0];
      assert ab[1..] == a[1..] + b;
      ConvertChildrenConcat(a[1..], b, current, inlineTagDisabled);
      CombineJoin(CreateBlock(a[0], current, inlineTagDisabled),
                  ConvertChildren(a[1..], current, inlineTagDisabled),
                  ConvertChildren(b, current, inlineTagDisabled));
    }
  }

  /** `text` nodes of white space only are dropped, whatever the white space. */
  lemma BlankTextIsDropped(text: string, current: Option<Doclets.Doclet>, inlineTagDisabled: bool)
    requires AllSpace(text)
    ensures CreateBlock(TextLeaf(text), current, inlineTagDisabled) == Success(None)
  {
    TextLeafKind(text);
  }

  /** A text leaf is a `text` node. */
  lemma TextLeafKind(text: string)
    ensures KindOf(TextLeaf(text).value.name) == TextNode
  {
    assert KeywordLowerString("text") == "text";
  }

  /** Node names are compared ignoring case. */
  lemma KindIgnoresCase(upper: string, lower: string)
    requires upper == "UL" && lower == "ul"
    ensures KindOf(upper) == KindOf(lower) == UlNode
  {
    assert KeywordLowerString(upper) == "ul";
    assert KeywordLowerString(lower) == "ul";
  }

  /** `Pre` is a `pre` element. */
  lemma PreKindIgnoresCase(mixed: string)
    requires mixed == "Pre"
    ensures KindOf(mixed) == PreNode
  {
    assert KeywordLowerString(mixed) == "pre";
  }

  /** A `pre` element whose text has a newline right after the opening tag and
      right before the closing tag holds the code between them. */
  lemma PreDropsFramingNewlines(name: string, body: string, value: Option<string>,
                                current: Option<Doclets.Doclet>, inlineTagDisabled: bool)
    requires KindOf(name) == PreNode
    ensures CreateBlock(TreeNode(NodeValue(name, value), [TextLeaf("\n" + body + "\n")]), current, inlineTagDisabled)
            == Success(Some(CodeBlock(body)))
  {
    var s := "\n" + body + "\n";
    var node := TreeNode(NodeValue(name, value), [TextLeaf(s)]);
    assert FirstChildText(node) == Success(Some(s));
    assert PreformattedText(s) == body by {
      assert s[1..|s| - 1] == body;
    }
  }

  /** A `pre` element whose first child is an element (with a `null` text)
      throws. */
  lemma PreOfElementFails(name: string, inner: TreeNode, more: seq<TreeNode>, value: Option<string>,
                          current: Option<Doclets.Doclet>, inlineTagDisabled: bool)
    requires KindOf(name) == PreNode && inner.value.text.None?
    ensures CreateBlock(TreeNode(NodeValue(name, value), [inner] + more), current, inlineTagDisabled)
            == Failure(NullText)
  {
  }

  /** `parseBlocks(str, opt_current)`. With HTML enabled the string is given
      as the callbacks the HTML parser makes for it; the tree is built from
      them and its top-level nodes are converted. With HTML disabled the
      string becomes a single paragraph of inline contents. */
  function ParseBlocks(str: string, events: seq<Event>, current: Option<Doclets.Doclet>,
                       htmlDisabled: bool, inlineTagDisabled: bool): (r: Result<seq<Block>, string>)
    ensures htmlDisabled ==>
              r == Success([ParagraphBlock(ParagraphOf(InlineTags.ParseInlineTags(str, current, inlineTagDisabled)))])
    ensures !htmlDisabled && BuildTree(events).Failure? ==> r.Failure?
    ensures !htmlDisabled && BuildTree(events).Success? ==>
              r == ConvertChildren(BuildTree(events).value, current, inlineTagDisabled)
  {
    if htmlDisabled then
      Success([ParagraphBlock(ParagraphOf(InlineTags.ParseInlineTags(str, current, inlineTagDisabled)))])
    else
      match BuildTree(events)
      case Failure(e) => Failure(e)
      case Success(roots) => ConvertChildren(roots, current, inlineTagDisabled)
  }

  /** Plain text without markup, entities or inline tags, and not blank, is
      one paragraph holding the trimmed text. */
  lemma PlainTextIsOneParagraph(text: string, current: Option<Doclets.Doclet>)
    requires '&' !in text && '{' !in text && !AllSpace(text)
    ensures ParseBlocks(text, [Text(text)], current, false, false)
            == Success([ParagraphBlock(ParagraphOf([Str(Trim(text))]))])
  {
    var leaf := TextLeaf(text);
    var block := ParagraphBlock(ParagraphOf([Str(Trim(text))]));
    assert BuildTree([Text(text)]) == Success([leaf]) by {
      DecodeWithoutAmpersandInTree(text);
    }
    PlainTextLeaf(text, current);
    ConvertOne(leaf, block, current, false);
  }

  /** A single child converted to a block is the whole result. */
  lemma ConvertOne(child: TreeNode, block: Block, current: Option<Doclets.Doclet>, inlineTagDisabled: bool)
    requires CreateBlock(child, current, inlineTagDisabled) == Success(Some(block))
    ensures ConvertChildren([child], current, inlineTagDisabled) == Success([block])
  {
    var rs := ChildResults([child], current, inlineTagDisabled);
    ConvertChildrenCombinesAll([child], current, inlineTagDisabled);
    assert rs[0] == Success(Some(block));
    assert CombineAll(rs[1..]) == Success([]);
    assert CombineAll(rs) == Combine(rs[0], CombineAll(rs[1..]));
    assert KeepBlock(Some(block)) + [] == [block];
  }

  lemma PlainTextLeaf(text: string, current: Option<Doclets.Doclet>)
    requires '{' !in text && !AllSpace(text)
    ensures CreateBlock(TextLeaf(text), current, false) == Success(Some(ParagraphBlock(ParagraphOf([Str(Trim(text))]))))
  {
    assert CreateBlock(TextLeaf(text), current, false)
           == Success(Some(ParagraphBlock(ParagraphOf(InlineTags.ParseInlineTags(text, current, false))))) by {
      TextLeafKind(text);
    }
    InlineTags.ParseWithoutBrace(text, current);
  }

  lemma DecodeWithoutAmpersandInTree(text: string)
    requires '&' !in text
    ensures BuildTree([Text(text)]) == Success([TextLeaf(text)])
  {
    EntityDecoding.DecodeWithoutAmpersand(text);
    var st := Building([TextLeaf(text)], []);
    assert EntityDecoding.DecodeEntities(text) == text;
    assert AppendToCurrent([], [], TextLeaf(text)) == st by {
      assert [] + [TextLeaf(text)] == [TextLeaf(text)];
    }
    assert Step(Building([], []), Text(text)) == Success(st);
    assert [Text(text)][1..] == [];
    assert Run(st, []) == Success(st);
    assert Run(Building([], []), [Text(text)]) == Success(st);
    assert Finish(st) == [TextLeaf(text)];
  }
}
