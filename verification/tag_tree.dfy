/** The tree the document helper builds from HTML parser events
    (`lib/dom/DocHelper.js`, `parseBlocks` and `DocHelper.TreeNode`).

    The parser itself (htmlparser2) is not part of this model: its callbacks
    are an event sequence. An enabled open tag appends a node named after the
    tag and makes it current; an enabled close tag makes the current node's
    parent current; any other tag, and every text, becomes a `text` leaf under
    the current node. Closing while the root is current makes the current node
    `null`, and the next event then fails with a `TypeError`.

    JavaScript appends a node to its parent when it is opened and keeps adding
    to it through the shared reference. The model keeps the open nodes on a
    stack of frames instead (the innermost last) and attaches each one to its
    parent when it is closed or when the parse is over: the resulting tree is
    the same, and the stack is the chain of parent links from the current
    node up to the root. */
module TagTrees {
  import opened Wrappers
  import opened JsStrings
  import opened EntityDecoding

  /** `DocHelper.ENABLED_TAG_NAME_REGEXP`, `/^(ul|ol|li|pre|code|b)/i`: a
      PREFIX test, so `br`, `body` and `button` are enabled too. */
  predicate IsEnabledTagName(name: string) {
    || StartsWithIgnoringCase(name, "ul")
    || StartsWithIgnoringCase(name, "ol")
    || StartsWithIgnoringCase(name, "li")
    || StartsWithIgnoringCase(name, "pre")
    || StartsWithIgnoringCase(name, "code")
    || StartsWithIgnoringCase(name, "b")
  }

  /** `name` starts with the lower-case `prefix` up to case. Without the
      unicode flag `/i` folds ASCII letters only. */
  predicate StartsWithIgnoringCase(name: string, prefix: string) {
    |prefix| <= |name| && forall i :: 0 <= i < |prefix| ==> AsciiLower(name[i]) == prefix[i]
  }

  lemma StartsWithLowered(name: string, prefix: string)
    ensures StartsWithIgnoringCase(AsciiLowerString(name), prefix) == StartsWithIgnoringCase(name, prefix)
  {
    var l := AsciiLowerString(name);
    assert forall i :: 0 <= i < |name| ==> AsciiLower(l[i]) == AsciiLower(name[i]);
  }

  /** The test ignores ASCII case, and a name that is enabled stays enabled
      whatever follows it. */
  lemma EnabledIgnoresCaseAndSuffix(name: string, suffix: string)
    ensures IsEnabledTagName(AsciiLowerString(name)) == IsEnabledTagName(name)
    ensures IsEnabledTagName(name) ==> IsEnabledTagName(name + suffix)
  {
    StartsWithLowered(name, "ul");
    StartsWithLowered(name, "ol");
    StartsWithLowered(name, "li");
    StartsWithLowered(name, "pre");
    StartsWithLowered(name, "code");
    StartsWithLowered(name, "b");
    assert forall i :: 0 <= i < |name| ==> (name + suffix)[i] == name[i];
  }

  /** Which names are enabled: the listed ones in any case, and anything that
      starts with `b`. */
  lemma EnabledExamples()
    ensures IsEnabledTagName("UL") && IsEnabledTagName("Pre") && IsEnabledTagName("code")
    ensures IsEnabledTagName("br") && IsEnabledTagName("body")
  {
  }

  /** Names that are not enabled: `p`, `div`, `a`, `u` and the empty name. */
  lemma DisabledExamples()
    ensures !IsEnabledTagName("p") && !IsEnabledTagName("div")
    ensures !IsEnabledTagName("a") && !IsEnabledTagName("u") && !IsEnabledTagName("")
  {
    assert AsciiLower("p"[0]) == 'p' && AsciiLower("div"[0]) == 'd';
    assert AsciiLower("a"[0]) == 'a' && AsciiLower("u"[0]) == 'u';
  }

  /** A node's value: `{ name, text }`; enabled nodes carry `null` text. */
  datatype NodeValue = NodeValue(name: string, text: Option<string>)

  /** `DocHelper.TreeNode`: a value and the ordered children. */
  datatype TreeNode = TreeNode(value: NodeValue, children: seq<TreeNode>)

  /** The parser callbacks: `onopentag`, `ontext`, `onclosetag`. */
  datatype Event = OpenTag(name: string) | Text(text: string) | CloseTag(name: string)

  /** An open node: its value and the children appended so far. */
  datatype Frame = Frame(value: NodeValue, children: seq<TreeNode>)

  /** The root's children so far and the open nodes (the current node is the
      last frame, or the root when there is none); or, after the root itself
      was closed, the root's children with no current node at all. */
  datatype BuildState = Building(roots: seq<TreeNode>, open: seq<Frame>) | Detached(roots: seq<TreeNode>)

  /** The error of any callback once the current node is `null`. */
  const NullCurrentNode: string := "TypeError: the current node is null"

  /** A `text` node holding `text`. */
  function TextLeaf(text: string): TreeNode {
    TreeNode(NodeValue("text", Some(text)), [])
  }

  /** `append`: a node with one more child at the end; the other children and
      the value stay. */
  function Append(parent: TreeNode, child: TreeNode): (r: TreeNode)
    ensures r.value == parent.value
    ensures |r.children| == |parent.children| + 1
    ensures r.children[..|parent.children|] == parent.children
    ensures r.children[|parent.children|] == child
  {
    TreeNode(parent.value, parent.children + [child])
  }

  /** `currentNode.append(node)`. */
  function AppendToCurrent(roots: seq<TreeNode>, open: seq<Frame>, node: TreeNode): (st: BuildState)
    ensures st.Building? && |st.open| == |open|
  {
    if |open| == 0 then Building(roots + [node], [])
    else
      var top := open[|open| - 1];
      Building(roots, open[..|open| - 1] + [Frame(top.value, top.children + [node])])
  }

  /** Leaving the current node: it is complete and is attached to its parent. */
  function CloseTop(roots: seq<TreeNode>, open: seq<Frame>): (st: BuildState)
    requires |open| > 0
    ensures st.Building? && |st.open| == |open| - 1
  {
    var top := open[|open| - 1];
    AppendToCurrent(roots, open[..|open| - 1], TreeNode(top.value, top.children))
  }

  /** One callback. */
  function Step(st: BuildState, e: Event): (r: Result<BuildState, string>)
    ensures st.Detached? ==> r == Failure(NullCurrentNode)
    ensures st.Building? ==> r.Success?
  {
    match st
    case Detached(_) => Failure(NullCurrentNode)
    case Building(roots, open) =>
      match e
      case OpenTag(name) =>
        if IsEnabledTagName(name) then Success(Building(roots, open + [Frame(NodeValue(name, None), [])]))
        else Success(AppendToCurrent(roots, open, TextLeaf("<" + name + ">")))
      case Text(text) =>
        Success(AppendToCurrent(roots, open, TextLeaf(DecodeEntities(text))))
      case CloseTag(name) =>
        if IsEnabledTagName(name) then
          if |open| == 0 then Success(Detached(roots)) else Success(CloseTop(roots, open))
        else Success(AppendToCurrent(roots, open, TextLeaf("</" + name + ">")))
  }

  /** The callbacks in order; the first failure ends the parse. */
  function Run(st: BuildState, es: seq<Event>): Result<BuildState, string>
    decreases |es|
  {
    if |es| == 0 then Success(st)
    else
      match Step(st, es[0])
      case Failure(err) => Failure(err)
      case Success(next) => Run(next, es[1..])
  }

  /** The tree under the root once the parse is over: nodes still open are
      already attached in JavaScript, so they are attached here. */
  function FinishOpen(roots: seq<TreeNode>, open: seq<Frame>): seq<TreeNode>
    decreases |open|
  {
    if |open| == 0 then roots
    else
      var st := CloseTop(roots, open);
      FinishOpen(st.roots, st.open)
  }

  function Finish(st: BuildState): seq<TreeNode> {
    match st
    case Detached(roots) => roots
    case Building(roots, open) => FinishOpen(roots, open)
  }

  /** The root's children after all the callbacks, or the `TypeError`. */
  function BuildTree(es: seq<Event>): Result<seq<TreeNode>, string> {
    Outcome(Run(Building([], []), es))
  }

  function Outcome(r: Result<BuildState, string>): Result<seq<TreeNode>, string> {
    match r
    case Failure(err) => Failure(err)
    case Success(st) => Success(Finish(st))
  }

  /** `forEachDecendant` on a list of siblings: each node, then its
      descendants, then the next sibling. */
  function Preorder(ts: seq<TreeNode>): seq<TreeNode>
    decreases ts
  {
    if |ts| == 0 then [] else [ts[0]] + Preorder(ts[0].children) + Preorder(ts[1..])
  }

  /** `node.forEachDecendant(f)` calls `f` on these nodes, in this order. */
  function ForEachDescendant(node: TreeNode): seq<TreeNode> {
    Preorder(node.children)
  }

  lemma SliceOfRight<T>(a: seq<T>, b: seq<T>, i: nat, j: nat)
    requires i <= j <= |b|
    ensures (a + b)[|a| + i..|a| + j] == b[i..j]
  {
  }

  lemma SliceOfLeft<T>(a: seq<T>, b: seq<T>, i: nat, j: nat)
    requires i <= j <= |a|
    ensures (a + b)[i..j] == a[i..j]
  {
  }

  /** Preorder: every visited node is directly followed by the visit of its
      own descendants. */
  lemma {:induction false} PreorderBlock(ts: seq<TreeNode>, i: nat)
    requires i < |Preorder(ts)|
    ensures var t := Preorder(ts)[i];
            && i + 1 + |Preorder(t.children)| <= |Preorder(ts)|
            && Preorder(ts)[i + 1..i + 1 + |Preorder(t.children)|] == Preorder(t.children)
    decreases ts
  {
    var head := [ts[0]] + Preorder(ts[0].children);
    var rest := Preorder(ts[1..]);
    assert Preorder(ts) == head + rest;
    if i < |head| {
      PreorderBlockHead(ts[0], i);
      var t := head[i];
      assert Preorder(ts)[i] == t;
      SliceOfLeft(head, rest, i + 1, i + 1 + |Preorder(t.children)|);
    } else {
      var j := i - |head|;
      PreorderBlock(ts[1..], j);
      var t := rest[j];
      assert Preorder(ts)[i] == t;
      SliceOfRight(head, rest, j + 1, j + 1 + |Preorder(t.children)|);
    }
  }

  lemma {:induction false} PreorderBlockHead(t0: TreeNode, i: nat)
    requires i < 1 + |Preorder(t0.children)|
    ensures var head := [t0] + Preorder(t0.children);
            var t := head[i];
            && i + 1 + |Preorder(t.children)| <= |head|
            && head[i + 1..i + 1 + |Preorder(t.children)|] == Preorder(t.children)
    decreases t0, 0
  {
    var c := Preorder(t0.children);
    var head := [t0] + c;
    if i > 0 {
      PreorderBlock(t0.children, i - 1);
      var t := c[i - 1];
      assert head[i] == t;
      SliceOfRight([t0], c, i, i + |Preorder(t.children)|);
    } else {
      assert head[1..] == c;
    }
  }

  lemma {:induction false} PreorderConcat(a: seq<TreeNode>, b: seq<TreeNode>)
    ensures Preorder(a + b) == Preorder(a) + Preorder(b)
    decreases |a|
  {
    if |a| == 0 {
      assert a + b == b;
    } else {
      assert (a + b)[0] == a[0];
      assert (a + b)[1..] == a[1..] + b;
      PreorderConcat(a[1..], b);
    }
  }

  function Values(ns: seq<TreeNode>): (r: seq<NodeValue>)
    ensures |r| == |ns|
    ensures forall i :: 0 <= i < |ns| ==> r[i] == ns[i].value
  {
    seq(|ns|, i requires 0 <= i < |ns| => ns[i].value)
  }

  lemma ValuesConcat(a: seq<TreeNode>, b: seq<TreeNode>)
    ensures Values(a + b) == Values(a) + Values(b)
  {
  }

  /** The node values of the open frames, outermost first, each followed by
      its descendants so far. */
  function OpenValues(open: seq<Frame>): seq<NodeValue> {
    if |open| == 0 then []
    else
      var top := open[|open| - 1];
      OpenValues(open[..|open| - 1]) + [top.value] + Values(Preorder(top.children))
  }

  /** The preorder of the tree as it stands: the finished part under the root,
      then the open nodes. */
  function StateValues(st: BuildState): seq<NodeValue> {
    match st
    case Detached(roots) => Values(Preorder(roots))
    case Building(roots, open) => Values(Preorder(roots)) + OpenValues(open)
  }

  /** The node, if any, an event creates. */
  function EventNode(e: Event): seq<NodeValue> {
    match e
    case OpenTag(name) =>
      if IsEnabledTagName(name) then [NodeValue(name, None)] else [NodeValue("text", Some("<" + name + ">"))]
    case Text(text) => [NodeValue("text", Some(DecodeEntities(text)))]
    case CloseTag(name) =>
      if IsEnabledTagName(name) then [] else [NodeValue("text", Some("</" + name + ">"))]
  }

  /** The nodes the events create, in event order. */
  function EventValues(es: seq<Event>): seq<NodeValue> {
    if |es| == 0 then [] else EventNode(es[0]) + EventValues(es[1..])
  }

  lemma PreorderSingle(node: TreeNode)
    ensures Preorder([node]) == [node] + Preorder(node.children)
  {
    assert [node][1..] == [];
  }

  lemma AppendValues(roots: seq<TreeNode>, open: seq<Frame>, node: TreeNode)
    ensures StateValues(AppendToCurrent(roots, open, node))
            == StateValues(Building(roots, open)) + [node.value] + Values(Preorder(node.children))
  {
    PreorderSingle(node);
    ValuesConcat([node], Preorder(node.children));
    assert Values(Preorder([node])) == [node.value] + Values(Preorder(node.children));
    if |open| == 0 {
      AppendValuesAtRoot(roots, node);
    } else {
      AppendValuesBelow(roots, open, node);
    }
  }

  lemma AppendValuesAtRoot(roots: seq<TreeNode>, node: TreeNode)
    requires Values(Preorder([node])) == [node.value] + Values(Preorder(node.children))
    ensures StateValues(AppendToCurrent(roots, [], node))
            == StateValues(Building(roots, [])) + [node.value] + Values(Preorder(node.children))
  {
    assert AppendToCurrent(roots, [], node) == Building(roots + [node], []);
    assert OpenValues([]) == [];
    PreorderConcat(roots, [node]);
    ValuesConcat(Preorder(roots), Preorder([node]));
    RegroupRoot(Values(Preorder(roots)), node.value, Values(Preorder(node.children)));
  }

  lemma RegroupClose<T>(p: seq<T>, i: seq<T>, x: T, c: seq<T>)
    ensures p + i + [x] + c == p + (i + [x] + c)
  {
  }

  /** Closing the current node moves it from the open frames to its parent;
      the preorder stays the same. */
  lemma CloseTopValues(roots: seq<TreeNode>, open: seq<Frame>)
    requires |open| > 0
    ensures StateValues(CloseTop(roots, open)) == StateValues(Building(roots, open))
  {
    var init, top := open[..|open| - 1], open[|open| - 1];
    var node := TreeNode(top.value, top.children);
    assert open == init + [top];
    OpenValuesSnoc(init, top);
    AppendValues(roots, init, node);
    RegroupClose(Values(Preorder(roots)), OpenValues(init), top.value, Values(Preorder(top.children)));
  }

  lemma RegroupRoot<T>(p: seq<T>, x: T, c: seq<T>)
    ensures (p + ([x] + c)) + [] == (p + []) + [x] + c
  {
  }

  lemma OpenValuesSnoc(init: seq<Frame>, f: Frame)
    ensures OpenValues(init + [f]) == OpenValues(init) + [f.value] + Values(Preorder(f.children))
  {
    var o := init + [f];
    assert o[..|o| - 1] == init;
  }

  lemma AppendValuesBelow(roots: seq<TreeNode>, open: seq<Frame>, node: TreeNode)
    requires |open| > 0
    requires Values(Preorder([node])) == [node.value] + Values(Preorder(node.children))
    ensures StateValues(AppendToCurrent(roots, open, node))
            == StateValues(Building(roots, open)) + [node.value] + Values(Preorder(node.children))
  {
    var init, top := open[..|open| - 1], open[|open| - 1];
    var top' := Frame(top.value, top.children + [node]);
    assert open == init + [top];
    assert AppendToCurrent(roots, open, node) == Building(roots, init + [top']);
    OpenValuesSnoc(init, top);
    OpenValuesSnoc(init, top');
    PreorderConcat(top.children, [node]);
    ValuesConcat(Preorder(top.children), Preorder([node]));
    Regroup(Values(Preorder(roots)), OpenValues(init) + [top.value], Values(Preorder(top.children)),
            node.value, Values(Preorder(node.children)));
  }

  lemma Regroup<T>(p: seq<T>, i: seq<T>, t: seq<T>, x: T, c: seq<T>)
    ensures p + (i + (t + ([x] + c))) == p + (i + t) + [x] + c
  {
  }

  /** A successful callback adds exactly the event's node to the preorder. */
  lemma StepValues(st: BuildState, e: Event)
    requires Step(st, e).Success?
    ensures StateValues(Step(st, e).value) == StateValues(st) + EventNode(e)
  {
    match e
    case OpenTag(name) => OpenTagValues(st.roots, st.open, name);
    case Text(text) => TextValues(st.roots, st.open, text);
    case CloseTag(name) => CloseTagValues(st.roots, st.open, name);
  }

  lemma OpenTagValues(roots: seq<TreeNode>, open: seq<Frame>, name: string)
    ensures StateValues(Step(Building(roots, open), OpenTag(name)).value)
            == StateValues(Building(roots, open)) + EventNode(OpenTag(name))
  {
    if IsEnabledTagName(name) {
      var f := Frame(NodeValue(name, None), []);
      OpenValuesSnoc(open, f);
      assert Values(Preorder([])) == [];
    } else {
      AppendValues(roots, open, TextLeaf("<" + name + ">"));
    }
  }

  lemma TextValues(roots: seq<TreeNode>, open: seq<Frame>, text: string)
    ensures StateValues(Step(Building(roots, open), Text(text)).value)
            == StateValues(Building(roots, open)) + EventNode(Text(text))
  {
    AppendValues(roots, open, TextLeaf(DecodeEntities(text)));
  }

  lemma CloseTagValues(roots: seq<TreeNode>, open: seq<Frame>, name: string)
    requires Step(Building(roots, open), CloseTag(name)).Success?
    ensures StateValues(Step(Building(roots, open), CloseTag(name)).value)
            == StateValues(Building(roots, open)) + EventNode(CloseTag(name))
  {
    if IsEnabledTagName(name) {
      if |open| > 0 {
        CloseTopValues(roots, open);
        var vs := StateValues(Building(roots, open));
        assert vs + [] == vs;
      }
    } else {
      AppendValues(roots, open, TextLeaf("</" + name + ">"));
    }
  }

  lemma {:induction false} RunValues(st: BuildState, es: seq<Event>)
    requires Run(st, es).Success?
    ensures StateValues(Run(st, es).value) == StateValues(st) + EventValues(es)
    decreases |es|
  {
    if |es| > 0 {
      StepValues(st, es[0]);
      RunValues(Step(st, es[0]).value, es[1..]);
    }
  }

  lemma {:induction false} FinishValues(roots: seq<TreeNode>, open: seq<Frame>)
    ensures Values(Preorder(FinishOpen(roots, open))) == StateValues(Building(roots, open))
    decreases |open|
  {
    if |open| > 0 {
      CloseTopValues(roots, open);
      var st := CloseTop(roots, open);
      FinishValues(st.roots, st.open);
    }
  }

  /** Whatever the nesting, visiting the built tree in preorder (as
      `forEachDecendant` on the root does) meets exactly the nodes the events
      created, in event order: enabled open tags as named nodes, other tags
      as `<name>` / `</name>` texts, texts decoded. */
  lemma BuildTreePreorder(es: seq<Event>)
    requires BuildTree(es).Success?
    ensures Values(Preorder(BuildTree(es).value)) == EventValues(es)
  {
    RunValues(Building([], []), es);
    var st := Run(Building([], []), es).value;
    if st.Building? {
      FinishValues(st.roots, st.open);
    }
  }

  /** How an event moves the current node down (+1) or up (-1). */
  function Delta(e: Event): int {
    match e
    case OpenTag(name) => if IsEnabledTagName(name) then 1 else 0
    case Text(_) => 0
    case CloseTag(name) => if IsEnabledTagName(name) then -1 else 0
  }

  function Balance(es: seq<Event>): int {
    if |es| == 0 then 0 else Delta(es[0]) + Balance(es[1..])
  }

  lemma BalanceOfPrefix(es: seq<Event>, k: nat)
    requires 1 <= k <= |es|
    ensures Balance(es[..k]) == Delta(es[0]) + Balance(es[1..][..k - 1])
  {
    assert es[..k][1..] == es[1..][..k - 1];
  }

  lemma {:induction false} RunFailsIff(roots: seq<TreeNode>, open: seq<Frame>, es: seq<Event>)
    ensures Run(Building(roots, open), es).Failure?
            <==> exists k :: 0 <= k < |es| && |open| + Balance(es[..k]) < 0
    decreases |es|
  {
    if |es| > 0 {
      var e := es[0];
      var next := Step(Building(roots, open), e).value;
      if next.Detached? {
        assert Delta(e) == -1 && |open| == 0;
        if |es| > 1 {
          BalanceOfPrefix(es, 1);
          assert es[1..][..0] == [];
          assert |open| + Balance(es[..1]) < 0;
        } else {
          assert forall k :: 0 <= k < |es| ==> k == 0 && es[..k] == [];
        }
      } else {
        assert |next.open| == |open| + Delta(e);
        RunFailsIff(next.roots, next.open, es[1..]);
        if Run(next, es[1..]).Failure? {
          var k' :| 0 <= k' < |es[1..]| && |next.open| + Balance(es[1..][..k']) < 0;
          BalanceOfPrefix(es, k' + 1);
          assert |open| + Balance(es[..k' + 1]) < 0;
        } else {
          forall k | 0 <= k < |es|
            ensures |open| + Balance(es[..k]) >= 0
          {
            if k > 0 {
              BalanceOfPrefix(es, k);
            }
          }
        }
      }
    }
  }

  /** The parse fails exactly when an enabled close tag leaves the root (the
      running balance of enabled opens over enabled closes drops below zero)
      and some event still follows. */
  lemma BuildTreeFailsIff(es: seq<Event>)
    ensures BuildTree(es).Failure? <==> exists k :: 0 <= k < |es| && Balance(es[..k]) < 0
  {
    RunFailsIff([], [], es);
  }

  /** The events are properly nested: the running balance never drops below
      zero and ends at zero. */
  predicate WellNested(es: seq<Event>) {
    && (forall k :: 0 <= k <= |es| ==> Balance(es[..k]) >= 0)
    && Balance(es) == 0
  }

  /** `BuildTree`'s result with nodes in front, failures unchanged. */
  function Prepend(p: seq<TreeNode>, r: Result<seq<TreeNode>, string>): Result<seq<TreeNode>, string> {
    match r
    case Failure(err) => Failure(err)
    case Success(ns) => Success(p + ns)
  }

  /** The leaf a text or a disabled tag becomes. */
  function Leaf(e: Event): TreeNode {
    match e
    case OpenTag(name) => TextLeaf("<" + name + ">")
    case Text(text) => TextLeaf(DecodeEntities(text))
    case CloseTag(name) => TextLeaf("</" + name + ">")
  }

  lemma RunAppend(st: BuildState, a: seq<Event>, b: seq<Event>)
    ensures Run(st, a + b) == if Run(st, a).Failure? then Run(st, a) else Run(Run(st, a).value, b)
    decreases |a|
  {
    if |a| == 0 {
      assert a + b == b;
    } else {
      assert (a + b)[0] == a[0];
      assert (a + b)[1..] == a[1..] + b;
      if Step(st, a[0]).Success? {
        RunAppend(Step(st, a[0]).value, a[1..], b);
      }
    }
  }

  lemma RunOne(st: BuildState, e: Event)
    ensures Run(st, [e]) == Step(st, e)
  {
    assert [e][0] == e && [e][1..] == [];
  }

  /** An enabled open tag at the root opens a node with no children. */
  lemma OpenFromRoot(n: string)
    requires IsEnabledTagName(n)
    ensures Run(Building([], []), [OpenTag(n)]) == Success(Lift([], [], NodeValue(n, None), Building([], [])))
  {
    RunOne(Building([], []), OpenTag(n));
    var open: seq<Frame> := [];
    var f := Frame(NodeValue(n, None), []);
    assert open + [f] == open + [f] + open;
  }

  /** An enabled close tag one level down attaches the node to the root. */
  lemma CloseToRoot(v: NodeValue, r: seq<TreeNode>, m: string)
    requires IsEnabledTagName(m)
    ensures Run(Building([], [Frame(v, r)]), [CloseTag(m)]) == Success(Building([TreeNode(v, r)], []))
  {
    RunOne(Building([], [Frame(v, r)]), CloseTag(m));
    var roots: seq<TreeNode> := [];
    assert [Frame(v, r)][..0] == [];
    assert roots + [TreeNode(v, r)] == [TreeNode(v, r)];
  }

  /** A successful callback moves the depth by the event's balance. */
  lemma StepDepth(roots: seq<TreeNode>, open: seq<Frame>, e: Event)
    requires Step(Building(roots, open), e).value.Building?
    ensures |Step(Building(roots, open), e).value.open| == |open| + Delta(e)
  {
  }

  /** While the balance stays non-negative the root is never left, and the
      depth at the end is the starting depth plus the balance. */
  lemma {:induction false} RunStaysBuilding(roots: seq<TreeNode>, open: seq<Frame>, es: seq<Event>)
    requires forall k :: 0 <= k <= |es| ==> |open| + Balance(es[..k]) >= 0
    ensures Run(Building(roots, open), es).Success?
    ensures Run(Building(roots, open), es).value.Building?
    ensures |Run(Building(roots, open), es).value.open| == |open| + Balance(es)
    decreases |es|
  {
    if |es| > 0 {
      var e := es[0];
      BalanceOfPrefix(es, 1);
      assert es[1..][..0] == [];
      assert |open| + Delta(e) >= 0;
      var next := Step(Building(roots, open), e).value;
      assert next.Building?;
      StepDepth(roots, open, e);
      forall k | 0 <= k <= |es[1..]|
        ensures |next.open| + Balance(es[1..][..k]) >= 0
      {
        BalanceOfPrefix(es, k + 1);
      }
      RunStaysBuilding(next.roots, next.open, es[1..]);
    }
  }

  /** A run from the root, seen from inside an open node `v` whose children
      so far are the run's roots. */
  function Lift(roots: seq<TreeNode>, open: seq<Frame>, v: NodeValue, inner: BuildState): BuildState
    requires inner.Building?
  {
    Building(roots, open + [Frame(v, inner.roots)] + inner.open)
  }

  lemma AppendLift(roots: seq<TreeNode>, open: seq<Frame>, v: NodeValue, r: seq<TreeNode>, o: seq<Frame>, node: TreeNode)
    ensures AppendToCurrent(roots, open + [Frame(v, r)] + o, node)
            == Lift(roots, open, v, AppendToCurrent(r, o, node))
  {
    var outer := open + [Frame(v, r)] + o;
    if |o| == 0 {
      assert outer == open + [Frame(v, r)];
      assert outer[..|outer| - 1] == open;
      assert open + [Frame(v, r + [node])] + [] == open + [Frame(v, r + [node])];
    } else {
      var top := o[|o| - 1];
      assert outer[..|outer| - 1] == open + [Frame(v, r)] + o[..|o| - 1];
      assert outer[|outer| - 1] == top;
      var top' := Frame(top.value, top.children + [node]);
      assert open + [Frame(v, r)] + o[..|o| - 1] + [top'] == open + [Frame(v, r)] + (o[..|o| - 1] + [top']);
    }
  }

  lemma StepLift(roots: seq<TreeNode>, open: seq<Frame>, v: NodeValue, r: seq<TreeNode>, o: seq<Frame>, e: Event)
    requires Step(Building(r, o), e).value.Building?
    ensures Step(Lift(roots, open, v, Building(r, o)), e) == Success(Lift(roots, open, v, Step(Building(r, o), e).value))
  {
    var outer := open + [Frame(v, r)] + o;
    match e
    case OpenTag(name) =>
      if IsEnabledTagName(name) {
        var f := Frame(NodeValue(name, None), []);
        assert outer + [f] == open + [Frame(v, r)] + (o + [f]);
      } else {
        AppendLift(roots, open, v, r, o, TextLeaf("<" + name + ">"));
      }
    case Text(text) =>
      AppendLift(roots, open, v, r, o, TextLeaf(DecodeEntities(text)));
    case CloseTag(name) =>
      if IsEnabledTagName(name) {
        var top := o[|o| - 1];
        assert outer[..|outer| - 1] == open + [Frame(v, r)] + o[..|o| - 1];
        assert outer[|outer| - 1] == top;
        AppendLift(roots, open, v, r, o[..|o| - 1], TreeNode(top.value, top.children));
      } else {
        AppendLift(roots, open, v, r, o, TextLeaf("</" + name + ">"));
      }
  }

  /** Events that never leave the root behave the same inside an open node:
      what they build becomes that node's children. */
  lemma {:induction false} RunLift(roots: seq<TreeNode>, open: seq<Frame>, v: NodeValue, inner: BuildState, es: seq<Event>)
    requires inner.Building?
    requires Run(inner, es).Success? && Run(inner, es).value.Building?
    ensures Run(Lift(roots, open, v, inner), es) == Success(Lift(roots, open, v, Run(inner, es).value))
    decreases |es|
  {
    if |es| > 0 {
      var next := Step(inner, es[0]).value;
      if next.Detached? {
        assert false;
      }
      StepLift(roots, open, v, inner.roots, inner.open, es[0]);
      RunLift(roots, open, v, next, es[1..]);
    }
  }

  /** A state whose root already holds `p` in front. */
  function PrefixState(p: seq<TreeNode>, st: BuildState): BuildState {
    match st
    case Building(roots, open) => Building(p + roots, open)
    case Detached(roots) => Detached(p + roots)
  }

  lemma AppendPrefix(p: seq<TreeNode>, roots: seq<TreeNode>, open: seq<Frame>, node: TreeNode)
    ensures AppendToCurrent(p + roots, open, node) == PrefixState(p, AppendToCurrent(roots, open, node))
  {
    assert p + roots + [node] == p + (roots + [node]);
  }

  lemma StepPrefix(p: seq<TreeNode>, st: BuildState, e: Event)
    ensures Step(st, e).Failure? ==> Step(PrefixState(p, st), e) == Step(st, e)
    ensures Step(st, e).Success? ==> Step(PrefixState(p, st), e) == Success(PrefixState(p, Step(st, e).value))
  {
    if st.Building? {
      var roots, open := st.roots, st.open;
      match e
      case OpenTag(name) =>
        AppendPrefix(p, roots, open, TextLeaf("<" + name + ">"));
      case Text(text) =>
        AppendPrefix(p, roots, open, TextLeaf(DecodeEntities(text)));
      case CloseTag(name) =>
        AppendPrefix(p, roots, open, TextLeaf("</" + name + ">"));
        if |open| > 0 {
          var top := open[|open| - 1];
          AppendPrefix(p, roots, open[..|open| - 1], TreeNode(top.value, top.children));
        }
    }
  }

  /** Nodes already under the root stay in front of whatever the events
      build. */
  lemma {:induction false} RunPrefix(p: seq<TreeNode>, st: BuildState, es: seq<Event>)
    ensures Run(st, es).Failure? ==> Run(PrefixState(p, st), es) == Run(st, es)
    ensures Run(st, es).Success? ==> Run(PrefixState(p, st), es) == Success(PrefixState(p, Run(st, es).value))
    decreases |es|
  {
    if |es| > 0 {
      StepPrefix(p, st, es[0]);
      if Step(st, es[0]).Success? {
        RunPrefix(p, Step(st, es[0]).value, es[1..]);
      }
    }
  }

  lemma {:induction false} FinishOpenPrefix(p: seq<TreeNode>, roots: seq<TreeNode>, open: seq<Frame>)
    ensures FinishOpen(p + roots, open) == p + FinishOpen(roots, open)
    decreases |open|
  {
    if |open| == 0 {
    } else {
      var top := open[|open| - 1];
      AppendPrefix(p, roots, open[..|open| - 1], TreeNode(top.value, top.children));
      var st := CloseTop(roots, open);
      FinishOpenPrefix(p, st.roots, st.open);
    }
  }

  lemma FinishPrefix(p: seq<TreeNode>, st: BuildState)
    ensures Finish(PrefixState(p, st)) == p + Finish(st)
  {
    if st.Building? {
      FinishOpenPrefix(p, st.roots, st.open);
    }
  }

  /** Nodes in front of the root carry over to the built tree. */
  lemma BuildFromPrefix(p: seq<TreeNode>, es: seq<Event>)
    ensures Outcome(Run(Building(p, []), es)) == Prepend(p, BuildTree(es))
  {
    assert Building(p, []) == PrefixState(p, Building([], [])) by {
      assert p + [] == p;
    }
    RunPrefix(p, Building([], []), es);
    if Run(Building([], []), es).Success? {
      FinishPrefix(p, Run(Building([], []), es).value);
    }
  }

  /** Properly nested events build without error, ending back at the root. */
  lemma WellNestedBuilds(es: seq<Event>)
    requires WellNested(es)
    ensures Run(Building([], []), es).Success?
    ensures Run(Building([], []), es).value == Building(BuildTree(es).value, [])
  {
    RunStaysBuilding([], [], es);
  }

  /** An enabled element: an enabled open tag, properly nested contents and
      an enabled close tag (whatever its name) become one node named after
      the open tag, whose children are the tree the contents build on their
      own, in front of what the following events build. */
  lemma BuildTreeElement(n: string, es: seq<Event>, m: string, rest: seq<Event>)
    requires IsEnabledTagName(n) && IsEnabledTagName(m) && WellNested(es)
    ensures BuildTree(es).Success?
    ensures BuildTree([OpenTag(n)] + es + [CloseTag(m)] + rest)
            == Prepend([TreeNode(NodeValue(n, None), BuildTree(es).value)], BuildTree(rest))
  {
    var v := NodeValue(n, None);
    var start := Building([], []);
    WellNestedBuilds(es);
    var r := BuildTree(es).value;
    assert [OpenTag(n)] + es + [CloseTag(m)] + rest == [OpenTag(n)] + (es + ([CloseTag(m)] + rest));
    RunAppend(start, [OpenTag(n)], es + ([CloseTag(m)] + rest));
    OpenFromRoot(n);
    assert Run(start, [OpenTag(n)]) == Success(Lift([], [], v, start));
    RunAppend(Lift([], [], v, start), es, [CloseTag(m)] + rest);
    RunLift([], [], v, start, es);
    assert Lift([], [], v, Building(r, [])) == Building([], [Frame(v, r)]);
    RunAppend(Building([], [Frame(v, r)]), [CloseTag(m)], rest);
    CloseToRoot(v, r, m);
    BuildFromPrefix([TreeNode(v, r)], rest);
  }

  /** An enabled open tag that is never closed still gives its node: it was
      attached when it was opened. */
  lemma UnclosedElement(n: string, es: seq<Event>)
    requires IsEnabledTagName(n) && WellNested(es)
    ensures BuildTree(es).Success?
    ensures BuildTree([OpenTag(n)] + es) == Success([TreeNode(NodeValue(n, None), BuildTree(es).value)])
  {
    var v := NodeValue(n, None);
    var start := Building([], []);
    WellNestedBuilds(es);
    var r := BuildTree(es).value;
    RunAppend(start, [OpenTag(n)], es);
    OpenFromRoot(n);
    assert Run(start, [OpenTag(n)]) == Success(Lift([], [], v, start));
    RunLift([], [], v, start, es);
    assert Lift([], [], v, Building(r, [])) == Building([], [Frame(v, r)]);
    assert FinishOpen([], [Frame(v, r)]) == [TreeNode(v, r)];
  }

  /** A text, or a tag that is not enabled, becomes one `text` leaf in front
      of what the following events build. */
  lemma BuildTreeLeaf(e: Event, rest: seq<Event>)
    requires Delta(e) == 0
    ensures BuildTree([e] + rest) == Prepend([Leaf(e)], BuildTree(rest))
  {
    var start := Building([], []);
    RunAppend(start, [e], rest);
    RunOne(start, e);
    var roots: seq<TreeNode> := [];
    assert roots + [Leaf(e)] == [Leaf(e)];
    assert Step(start, e) == Success(Building([Leaf(e)], [])) by {
      match e
      case OpenTag(_) =>
      case Text(_) =>
      case CloseTag(_) =>
    }
    BuildFromPrefix([Leaf(e)], rest);
  }

  /** No events, no nodes. */
  lemma BuildTreeEmpty()
    ensures BuildTree([]) == Success([])
  {
  }

  /** `<ul>a</ul>` is one `ul` node holding the text `a`. */
  lemma ListExample()
    ensures BuildTree([OpenTag("ul"), Text("a"), CloseTag("ul")])
            == Success([TreeNode(NodeValue("ul", None), [TextLeaf("a")])])
  {
    var inner, none := [Text("a")], [];
    assert IsEnabledTagName("ul");
    DecodeWithoutAmpersand("a");
    BuildTreeEmpty();
    BuildTreeLeaf(Text("a"), none);
    assert inner + none == inner;
    assert Leaf(Text("a")) == TextLeaf("a");
    var leaves: seq<TreeNode> := [TextLeaf("a")];
    assert leaves + [] == leaves;
    assert BuildTree(inner) == Success(leaves);
    assert Balance(inner[..0]) == 0 && Balance(inner[..1]) == 0;
    BuildTreeElement("ul", inner, "ul", none);
    assert [OpenTag("ul")] + inner + [CloseTag("ul")] + none == [OpenTag("ul"), Text("a"), CloseTag("ul")];
    var list: seq<TreeNode> := [TreeNode(NodeValue("ul", None), leaves)];
    assert list + [] == list;
  }
}
