/** Inline tags in documentation text (`lib/dom/DocHelper.js`,
    `parseInlineTags`, `createInlineElement`, `resolveInlineLink`).

    `parseInlineTags` runs `input.replace(/([^\{]+)?(\{@([\S]+)\s+([^\}]+)\})?/g, f)`
    only for the calls of `f`; `Scan` reproduces the successive matches of
    that global replacement. At each position the text up to the next `{` is
    the optional "pre" group; then an inline tag `{@name content}` may follow:
    `name` is a run of non-white-space characters, then white space, then a
    content of non-`}` characters, then `}`. When nothing matches at a `{`,
    the match is empty and the scan moves one character on, so that `{` is
    not part of any result. */
module InlineTags {
  import opened Wrappers
  import opened JsStrings
  import opened Doclets
  import opened Dom
  import Links
  import UnknownInlineTags

  predicate NotBrace(c: char) { c != '{' }
  predicate NotCloseBrace(c: char) { c != '}' }
  predicate NotSpace(c: char) { !IsJsSpace(c) }

  /** The length of the longest prefix of `s` whose characters satisfy `p`:
      how far a greedy `[...]+` or `[...]*` reaches. */
  function RunLength(s: string, p: char -> bool): (n: nat)
    ensures n <= |s|
    ensures forall k :: 0 <= k < n ==> p(s[k])
    ensures n < |s| ==> !p(s[n])
  {
    if |s| == 0 || !p(s[0]) then 0
    else
      var n := 1 + RunLength(s[1..], p);
      assert forall k :: 1 <= k < n ==> s[k] == s[1..][k - 1];
      n
  }

  lemma RunLengthUnique(s: string, p: char -> bool, n: nat)
    requires n <= |s|
    requires forall k :: 0 <= k < n ==> p(s[k])
    requires n < |s| ==> !p(s[n])
    ensures RunLength(s, p) == n
  {
  }

  /** One match of the inline-tag group: the name, the content and the
      length of the whole `{@...}` text. */
  datatype TagMatch = TagMatch(name: string, content: string, length: nat)

  /** The inline-tag group matched at the start of `s`, if it matches. When
      the white space after the name runs straight into `}`, the regular
      expression backtracks and takes the last white-space character as the
      content, which needs at least two white-space characters. */
  function MatchTag(s: string): (m: Option<TagMatch>)
    ensures m.Some? ==> 0 < m.value.length <= |s|
  {
    if |s| >= 2 && s[0] == '{' && s[1] == '@' then
      var afterAt := s[2..];
      var n := RunLength(afterAt, NotSpace);
      if n == 0 || n == |afterAt| then None
      else
        var afterName := afterAt[n..];
        var w := RunLength(afterName, IsJsSpace);
        var body := afterName[w..];
        if |body| > 0 && body[0] != '}' then
          var c := RunLength(body, NotCloseBrace);
          if c == |body| then None
          else Some(TagMatch(afterAt[..n], body[..c], 2 + n + w + c + 1))
        else if |body| > 0 && w >= 2 then
          Some(TagMatch(afterAt[..n], afterName[w - 1..w], 2 + n + w + 1))
        else None
    else None
  }

  /** What the callback pushes: a trimmed "pre" text or an inline tag. */
  datatype Token = PreText(text: string) | InlineTag(name: string, content: string)

  /** One match of the global replacement: what its callback pushes and how
      many characters it consumes (an empty match moves one character on). */
  datatype Step = Step(emitted: seq<Token>, consumed: nat)

  function ScanStep(s: string): (st: Step)
    requires |s| > 0
    ensures 0 < st.consumed <= |s|
  {
    var j := RunLength(s, NotBrace);
    var pre := if j > 0 then [PreText(Trim(s[..j]))] else [];
    match MatchTag(s[j..])
    case Some(m) => Step(pre + [InlineTag(m.name, m.content)], j + m.length)
    case None => if j > 0 then Step(pre, j) else Step([], 1)
  }

  /** The callback calls of the global replacement, in order, keeping only
      what they push. */
  function Scan(s: string): seq<Token>
    decreases |s|
  {
    if |s| == 0 then []
    else
      var st := ScanStep(s);
      st.emitted + Scan(s[st.consumed..])
  }

  /** `resolveInlineLink(link, opt_current)`: a link whose first non-space
      character is `#` is relative to the current doclet's `memberof`, when
      there is a current doclet and its `memberof` is truthy; any other link
      is returned as it is. */
  function ResolveInlineLink(link: string, current: Option<Doclet>): (r: string)
    ensures IsRelativeLink(link) && current.Some? && Truthy(current.value.memberof)
            ==> r == current.value.memberof.value + link
    ensures !(IsRelativeLink(link) && current.Some? && Truthy(current.value.memberof)) ==> r == link
  {
    if current.Some? && Truthy(current.value.memberof) && IsRelativeLink(link) then
      current.value.memberof.value + link
    else link
  }

  /** `link.match(/^\s*#/)`. */
  predicate IsRelativeLink(link: string) {
    var t := TrimStart(link);
    |t| > 0 && t[0] == '#'
  }

  lemma {:induction false} TrimStartOfConcat(a: string, b: string)
    requires !AllSpace(a)
    ensures TrimStart(a + b) == TrimStart(a) + b
  {
    if IsJsSpace(a[0]) {
      assert (a + b)[1..] == a[1..] + b;
      TrimStartOfConcat(a[1..], b);
    }
  }

  /** Resolving a resolved link changes nothing, unless the parent name itself
      looks relative (white space only, or a leading `#`). */
  lemma ResolveIdempotent(link: string, current: Option<Doclet>)
    requires current.Some? && current.value.memberof.Some?
    requires !AllSpace(current.value.memberof.value)
    requires !IsRelativeLink(current.value.memberof.value)
    ensures ResolveInlineLink(ResolveInlineLink(link, current), current) == ResolveInlineLink(link, current)
  {
    var mo := current.value.memberof.value;
    TrimStartOfConcat(mo, link);
  }

  /** `createInlineElement(tagName, tagElement, opt_current)`: the tag name is
      compared in lower case; `link` gives a link to the resolved target,
      `plain` and `code` give inline code, anything else an unknown tag keeping
      the name as written. */
  function CreateInlineElement(tagName: string, tagElement: string, current: Option<Doclet>): (r: Inline)
    ensures KeywordLowerString(tagName) == "link"
            ==> r == LinkTo(Links.NewLink(ResolveInlineLink(tagElement, current)))
    ensures KeywordLowerString(tagName) in ["plain", "code"] ==> r == InlineCode(Some(tagElement))
    ensures KeywordLowerString(tagName) !in ["link", "plain", "code"]
            ==> r.Unknown? && r.unknownTag == UnknownInlineTags.NewUnknownInlineTag(tagName, tagElement, current)
  {
    var lower := KeywordLowerString(tagName);
    if lower == "link" then LinkTo(Links.NewLink(ResolveInlineLink(tagElement, current)))
    else if lower == "plain" || lower == "code" then InlineCode(Some(tagElement))
    else Unknown(UnknownInlineTags.NewUnknownInlineTag(tagName, tagElement, current))
  }

  /** The dispatch ignores case, including the KELVIN SIGN that `toLowerCase`
      turns into `k`. */
  lemma DispatchIgnoresCase(content: string, current: Option<Doclet>)
    ensures CreateInlineElement("LINK", content, current) == CreateInlineElement("link", content, current)
    ensures CreateInlineElement("lin\U{212A}", content, current) == CreateInlineElement("link", content, current)
    ensures CreateInlineElement("Code", content, current) == InlineCode(Some(content))
    ensures CreateInlineElement("PLAIN", content, current) == InlineCode(Some(content))
  {
    assert KeywordLowerString("LINK") == "link";
    assert KeywordLowerString("lin\U{212A}") == "link";
    assert KeywordLowerString("link") == "link";
    assert KeywordLowerString("Code") == "code";
    assert KeywordLowerString("PLAIN") == "plain";
  }

  /** An unknown tag publishes as its bare content: the name, `@` and the
      braces are gone. */
  lemma UnknownTagPassesThrough(name: string, content: string, current: Option<Doclet>)
    requires KeywordLowerString(name) !in ["link", "plain", "code"]
    ensures var r := CreateInlineElement(name, content, current);
            r.Unknown? && UnknownInlineTags.Publish(r.unknownTag).text == content
  {
  }

  function TokenToInline(t: Token, current: Option<Doclet>): Inline {
    match t
    case PreText(text) => Str(text)
    case InlineTag(name, content) => CreateInlineElement(name, content, current)
  }

  /** `parseInlineTags(input, opt_current)`: the pushed contents in order; when
      inline tags are disabled or nothing was pushed, the array is still the
      initial `[input]`. */
  function ParseInlineTags(input: string, current: Option<Doclet>, inlineTagDisabled: bool): (r: seq<Inline>)
    ensures |r| >= 1
    ensures inlineTagDisabled ==> r == [Str(input)]
    ensures !inlineTagDisabled && |Scan(input)| > 0 ==>
              |r| == |Scan(input)| && forall i :: 0 <= i < |r| ==> r[i] == TokenToInline(Scan(input)[i], current)
  {
    var toks := Scan(input);
    if inlineTagDisabled || |toks| == 0 then [Str(input)]
    else seq(|toks|, i requires 0 <= i < |toks| => TokenToInline(toks[i], current))
  }

  /** The text of an inline tag with a single space between name and content. */
  function TagText(name: string, content: string): string {
    "{@" + name + " " + content + "}"
  }

  /** A name the tag group reads back whole: non-empty, no white space. */
  predicate ValidTagName(name: string) {
    |name| > 0 && forall k :: 0 <= k < |name| ==> !IsJsSpace(name[k])
  }

  /** A content the tag group reads back whole: non-empty, no `}`, and not
      starting with white space (which would go to the separator). */
  predicate ValidTagContent(content: string) {
    |content| > 0 && '}' !in content && !IsJsSpace(content[0])
  }

  /** The characters of a tag text followed by more text. */
  lemma TagTextShape(name: string, content: string, rest: string)
    ensures var s := TagText(name, content) + rest;
            && |TagText(name, content)| == |name| + |content| + 4
            && |s| >= 2 && s[0] == '{' && s[1] == '@'
            && s[2..] == name + ([' '] + (content + (['}'] + rest)))
  {
    var s := TagText(name, content) + rest;
    assert s == ['{', '@'] + (name + ([' '] + (content + (['}'] + rest))));
  }

  lemma MatchTagText(name: string, content: string, rest: string)
    requires ValidTagName(name) && ValidTagContent(content)
    ensures MatchTag(TagText(name, content) + rest) == Some(TagMatch(name, content, |TagText(name, content)|))
  {
    TagTextShape(name, content, rest);
    MatchTagParts(TagText(name, content) + rest, name, content, rest);
  }

  lemma MatchTagParts(s: string, name: string, content: string, rest: string)
    requires ValidTagName(name) && ValidTagContent(content)
    requires |s| >= 2 && s[0] == '{' && s[1] == '@'
    requires s[2..] == name + ([' '] + (content + (['}'] + rest)))
    ensures MatchTag(s) == Some(TagMatch(name, content, |name| + |content| + 4))
  {
    var afterAt := s[2..];
    RunLengthUnique(afterAt, NotSpace, |name|);
    var afterName := afterAt[|name|..];
    assert afterName == [' '] + (content + (['}'] + rest));
    RunLengthUnique(afterName, IsJsSpace, 1);
    var body := afterName[1..];
    assert body == content + (['}'] + rest);
    RunLengthUnique(body, NotCloseBrace, |content|);
    assert afterAt[..|name|] == name;
    assert body[..|content|] == content;
  }

  /** The scan is the first step's tokens followed by the scan of what the
      step leaves. */
  lemma ScanConsumes(s: string, emitted: seq<Token>, n: nat)
    requires |s| > 0 && ScanStep(s) == Step(emitted, n)
    ensures n <= |s| && Scan(s) == emitted + Scan(s[n..])
  {
  }

  lemma StepPreThenTag(pre: string, name: string, content: string, rest: string)
    requires '{' !in pre
    requires ValidTagName(name) && ValidTagContent(content)
    ensures ScanStep(pre + TagText(name, content) + rest)
            == Step((if pre == "" then [] else [PreText(Trim(pre))]) + [InlineTag(name, content)],
                    |pre| + |TagText(name, content)|)
  {
    var t := TagText(name, content);
    var s := pre + t + rest;
    assert s == pre + (t + rest);
    RunLengthUnique(s, NotBrace, |pre|);
    assert s[..|pre|] == pre;
    assert s[|pre|..] == t + rest;
    MatchTagText(name, content, rest);
  }

  /** A "pre" text and an inline tag: the trimmed text (when there is any text)
      and the tag, then whatever follows. */
  lemma ScanPreThenTag(pre: string, name: string, content: string, rest: string)
    requires '{' !in pre
    requires ValidTagName(name) && ValidTagContent(content)
    ensures Scan(pre + TagText(name, content) + rest)
            == (if pre == "" then [] else [PreText(Trim(pre))]) + [InlineTag(name, content)] + Scan(rest)
  {
    var s := pre + TagText(name, content) + rest;
    StepPreThenTag(pre, name, content, rest);
    assert s[|pre| + |TagText(name, content)|..] == rest;
  }

  /** An inline tag at the very start. */
  lemma ScanTagFirst(name: string, content: string, rest: string)
    requires ValidTagName(name) && ValidTagContent(content)
    ensures Scan(TagText(name, content) + rest) == [InlineTag(name, content)] + Scan(rest)
  {
    var t := TagText(name, content);
    var s := t + rest;
    StepTagFirst(name, content, rest);
    assert s[|t|..] == rest;
  }

  lemma StepTagFirst(name: string, content: string, rest: string)
    requires ValidTagName(name) && ValidTagContent(content)
    ensures ScanStep(TagText(name, content) + rest) == Step([InlineTag(name, content)], |TagText(name, content)|)
  {
    var s := TagText(name, content) + rest;
    TagTextShape(name, content, rest);
    RunLengthUnique(s, NotBrace, 0);
    assert s[0..] == s;
    MatchTagText(name, content, rest);
  }

  lemma StepWithoutBrace(s: string)
    requires '{' !in s && s != ""
    ensures ScanStep(s) == Step([PreText(Trim(s))], |s|)
  {
    RunLengthUnique(s, NotBrace, |s|);
    assert s[..|s|] == s;
    assert s[|s|..] == "";
  }

  /** Text without `{` is one trimmed "pre" text. */
  lemma ScanWithoutBrace(s: string)
    requires '{' !in s && s != ""
    ensures Scan(s) == [PreText(Trim(s))]
  {
    StepWithoutBrace(s);
    assert s[|s|..] == "";
  }

  /** Without `{` the result is the trimmed input alone (the empty input stays
      the empty input). */
  lemma ParseWithoutBrace(input: string, current: Option<Doclet>)
    requires '{' !in input
    ensures ParseInlineTags(input, current, false) == [Str(Trim(input))]
  {
    if input != "" {
      ScanWithoutBrace(input);
    }
  }

  lemma TrimSee()
    ensures Trim("see ") == "see"
  {
    assert TrimStart("see ") == "see ";
    assert "see "[..3] == "see";
    assert TrimEnd("see ") == TrimEnd("see");
  }

  /** A "pre" text closed by an inline tag at the end of the input. */
  lemma ScanPreThenTagAtEnd(pre: string, name: string, content: string)
    requires pre != "" && '{' !in pre
    requires ValidTagName(name) && ValidTagContent(content)
    ensures Scan(pre + TagText(name, content)) == [PreText(Trim(pre)), InlineTag(name, content)]
  {
    var s := pre + TagText(name, content);
    var e: string := [];
    assert s == pre + TagText(name, content) + e;
    StepPreThenTag(pre, name, content, e);
    assert s[|s|..] == e;
  }

  lemma ScanSee(input: string)
    requires input == "see {@xyzzy plugh}"
    ensures Scan(input) == [PreText("see"), InlineTag("xyzzy", "plugh")]
  {
    assert ValidTagName("xyzzy");
    assert ValidTagContent("plugh");
    assert input == "see " + TagText("xyzzy", "plugh");
    ScanPreThenTagAtEnd("see ", "xyzzy", "plugh");
    TrimSee();
  }

  /** `"see {@xyzzy plugh}"` becomes the text `see` and an unknown tag
      `xyzzy` with content `plugh`. */
  lemma SeeUnknownTagExample(input: string, current: Option<Doclet>)
    requires input == "see {@xyzzy plugh}"
    ensures ParseInlineTags(input, current, false)
            == [Str("see"), Unknown(UnknownInlineTags.NewUnknownInlineTag("xyzzy", "plugh", current))]
  {
    ScanSee(input);
    ParseTwoTokens(input, current, PreText("see"), InlineTag("xyzzy", "plugh"));
    XyzzyIsUnknown(current);
  }

  lemma ParseTwoTokens(input: string, current: Option<Doclet>, t0: Token, t1: Token)
    requires Scan(input) == [t0, t1]
    ensures ParseInlineTags(input, current, false) == [TokenToInline(t0, current), TokenToInline(t1, current)]
  {
    var r := ParseInlineTags(input, current, false);
    assert |r| == 2;
    assert r[0] == TokenToInline(t0, current);
    assert r[1] == TokenToInline(t1, current);
  }

  lemma XyzzyIsUnknown(current: Option<Doclet>)
    ensures CreateInlineElement("xyzzy", "plugh", current)
            == Unknown(UnknownInlineTags.NewUnknownInlineTag("xyzzy", "plugh", current))
  {
    assert KeywordLowerString("xyzzy") == "xyzzy";
  }

  lemma StepStrayBrace(b: string)
    requires |b| > 0 && b[0] != '@'
    ensures ScanStep("{" + b) == Step([], 1)
  {
    RunLengthUnique("{" + b, NotBrace, 0);
    assert ("{" + b)[0..] == "{" + b;
  }

  lemma ScanStrayBrace(b: string)
    requires b != "" && '{' !in b && b[0] != '@'
    ensures Scan("{" + b) == [PreText(Trim(b))]
  {
    StepStrayBrace(b);
    assert ("{" + b)[1..] == b;
    ScanWithoutBrace(b);
  }

  lemma StepTextThenBrace(a: string, b: string)
    requires a != "" && '{' !in a
    requires b != "" && b[0] != '@'
    ensures ScanStep(a + "{" + b) == Step([PreText(Trim(a))], |a|)
  {
    var s := a + "{" + b;
    RunLengthUnique(s, NotBrace, |a|);
    assert s[..|a|] == a;
    assert s[|a|..] == "{" + b;
  }

  /** A `{` that starts no inline tag is dropped: the texts on either side come
      out as two separate trimmed texts, as for `a {b`. */
  lemma StrayBraceIsDropped(a: string, b: string)
    requires a != "" && '{' !in a
    requires b != "" && '{' !in b && b[0] != '@'
    ensures Scan(a + "{" + b) == [PreText(Trim(a)), PreText(Trim(b))]
  {
    var s := a + "{" + b;
    StepTextThenBrace(a, b);
    ScanConsumes(s, [PreText(Trim(a))], |a|);
    assert s[|a|..] == "{" + b;
    ScanStrayBrace(b);
  }

  /** Token sequences the scanner reads back exactly: "pre" texts are
      non-empty, trimmed and free of `{`; tags have valid names and contents;
      two "pre" texts never follow each other (they would be one text). */
  predicate WellFormedTokens(toks: seq<Token>) {
    && (forall i :: 0 <= i < |toks| && toks[i].PreText? ==>
          toks[i].text != "" && '{' !in toks[i].text && Trim(toks[i].text) == toks[i].text)
    && (forall i :: 0 <= i < |toks| && toks[i].InlineTag? ==>
          ValidTagName(toks[i].name) && ValidTagContent(toks[i].content))
    && (forall i :: 0 <= i < |toks| - 1 && toks[i].PreText? ==> toks[i + 1].InlineTag?)
  }

  /** The reference inverse of the scanner: tokens written back as text. */
  function Render(toks: seq<Token>): string {
    if |toks| == 0 then ""
    else
      (match toks[0]
       case PreText(text) => text
       case InlineTag(name, content) => TagText(name, content))
      + Render(toks[1..])
  }

  lemma WellFormedSuffix(toks: seq<Token>, k: nat)
    requires WellFormedTokens(toks) && k <= |toks|
    ensures WellFormedTokens(toks[k..])
  {
    var rest := toks[k..];
    forall i | 0 <= i < |rest| - 1 && rest[i].PreText?
      ensures rest[i + 1].InlineTag?
    {
      assert rest[i] == toks[i + k] && rest[i + 1] == toks[i + k + 1];
    }
  }

  lemma ScanRenderTagHead(toks: seq<Token>)
    requires |toks| > 0 && toks[0].InlineTag?
    requires ValidTagName(toks[0].name) && ValidTagContent(toks[0].content)
    requires Scan(Render(toks[1..])) == toks[1..]
    ensures Scan(Render(toks)) == toks
  {
    var r := Render(toks[1..]);
    assert Render(toks) == TagText(toks[0].name, toks[0].content) + r;
    ScanTagFirst(toks[0].name, toks[0].content, r);
    assert toks == [toks[0]] + toks[1..];
  }

  lemma ScanRenderPreLast(toks: seq<Token>)
    requires |toks| == 1 && toks[0].PreText?
    requires toks[0].text != "" && '{' !in toks[0].text && Trim(toks[0].text) == toks[0].text
    ensures Scan(Render(toks)) == toks
  {
    assert toks[1..] == [];
    assert Render(toks) == toks[0].text + Render(toks[1..]);
    assert Render(toks) == toks[0].text;
    ScanWithoutBrace(toks[0].text);
  }

  lemma RenderPreHead(text: string, name: string, content: string, rest: seq<Token>)
    ensures Render([PreText(text), InlineTag(name, content)] + rest)
            == text + TagText(name, content) + Render(rest)
  {
    var toks := [PreText(text), InlineTag(name, content)] + rest;
    assert toks[1..] == [InlineTag(name, content)] + rest;
    assert toks[1..][1..] == rest;
  }

  lemma ScanRenderPreHead(text: string, name: string, content: string, rest: seq<Token>)
    requires text != "" && '{' !in text && Trim(text) == text
    requires ValidTagName(name) && ValidTagContent(content)
    requires Scan(Render(rest)) == rest
    ensures Scan(Render([PreText(text), InlineTag(name, content)] + rest))
            == [PreText(text), InlineTag(name, content)] + rest
  {
    RenderPreHead(text, name, content, rest);
    ScanPreThenTag(text, name, content, Render(rest));
  }

  /** Scanning undoes rendering, for every well-formed token sequence. */
  lemma {:induction false} ScanRender(toks: seq<Token>)
    requires WellFormedTokens(toks)
    ensures Scan(Render(toks)) == toks
    decreases |toks|
  {
    if |toks| > 0 {
      if toks[0].InlineTag? {
        WellFormedSuffix(toks, 1);
        ScanRender(toks[1..]);
        ScanRenderTagHead(toks);
      } else if |toks| == 1 {
        ScanRenderPreLast(toks);
      } else {
        WellFormedSuffix(toks, 2);
        ScanRender(toks[2..]);
        ScanRenderPreHead(toks[0].text, toks[1].name, toks[1].content, toks[2..]);
        assert toks == [PreText(toks[0].text), InlineTag(toks[1].name, toks[1].content)] + toks[2..];
      }
    }
  }
}
