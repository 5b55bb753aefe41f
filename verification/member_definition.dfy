/** `lib/dom/MemberDefinition.js`: the definition of one member, whose term is
    the member's digest and whose descriptions are the summary blocks parsed
    from its description, followed by a list of details (visibility,
    deprecation, see-also) when it has any.

    The digest comes from the subclass (`createDigest` is abstract) and is a
    parameter here. The detail definitions' own classes are not part of this
    model; each is represented by the value it is built from. */
module MemberDefinitions {
  import opened Wrappers
  import opened JsStrings
  import opened Doclets
  import opened Dom
  import opened DocElements
  import Paragraphs

  /** `VisibilityDefinition(symbol.access)`, `DeprecationDefinition(symbol)`
      and `SeeDefinition(symbol.see)`. */
  datatype Detail = Visibility(access: string) | Deprecation(symbol: Doclet) | See(see: seq<string>)

  /** The position of a detail in the list. */
  function DetailRank(d: Detail): (n: nat)
    ensures n < 3
  {
    match d
    case Visibility(_) => 0
    case Deprecation(_) => 1
    case See(_) => 2
  }

  /** An element of the descriptions array: a summary block, or the detail
      definition list. */
  datatype Description = Summary(block: Block) | DetailList(details: seq<Detail>)

  datatype MemberDefinition = MemberDefinition(term: Paragraphs.Paragraph<Inline>, descriptions: seq<Description>)

  /** `createSummaryBlocks(symbol)`: the description is parsed, or
      `NO_DESCRIPTION` when the description is missing or empty. */
  function CreateSummaryBlocks(h: Helpers, symbol: Doclet): (r: Result<seq<Block>, string>)
    ensures Truthy(symbol.description) ==> r == ParseBlocks(h, symbol.description.value, symbol)
    ensures !Truthy(symbol.description) ==> r == ParseBlocks(h, h.noDescription, symbol)
  {
    ParseBlocks(h, StringOr(symbol.description, h.noDescription), symbol)
  }

  /** The definitions `createDetailDefinitionList` adds: a visibility
      definition when `access` is truthy, a deprecation definition when the
      symbol is deprecated, a see definition when `see` is set (an array, even
      an empty one, is truthy), in that order. */
  function Details(symbol: Doclet): (r: seq<Detail>)
    ensures |r| <= 3
    ensures forall i, j :: 0 <= i < j < |r| ==> DetailRank(r[i]) < DetailRank(r[j])
    ensures forall d :: d in r ==> match d
                                   case Visibility(a) => symbol.access == Some(a) && a != ""
                                   case Deprecation(s) => s == symbol && symbol.deprecated
                                   case See(s) => symbol.see == Some(s)
  {
    var visibility := if Truthy(symbol.access) then [Visibility(symbol.access.value)] else [];
    var deprecation := if symbol.deprecated then [Deprecation(symbol)] else [];
    var see := if symbol.see.Some? then [See(symbol.see.value)] else [];
    visibility + deprecation + see
  }

  /** Each detail is present exactly when its field is truthy. */
  lemma DetailsPresence(symbol: Doclet)
    ensures (exists d :: d in Details(symbol) && d.Visibility?) <==> Truthy(symbol.access)
    ensures (exists d :: d in Details(symbol) && d.Deprecation?) <==> symbol.deprecated
    ensures (exists d :: d in Details(symbol) && d.See?) <==> symbol.see.Some?
  {
    var r := Details(symbol);
    if Truthy(symbol.access) {
      assert r[0] == Visibility(symbol.access.value);
    }
    if symbol.deprecated {
      assert Deprecation(symbol) in r;
    }
    if symbol.see.Some? {
      assert r[|r| - 1] == See(symbol.see.value);
    }
  }

  /** `createDetailDefinitionList(symbol)`: the list, or `null` when it would
      be empty. */
  function CreateDetailDefinitionList(symbol: Doclet): (r: Option<seq<Detail>>)
    ensures r.None? <==> !Truthy(symbol.access) && !symbol.deprecated && symbol.see.None?
    ensures r.Some? ==> r.value == Details(symbol) && |r.value| > 0
  {
    var defs := Details(symbol);
    if |defs| > 0 then Some(defs)
    else
      assert !Truthy(symbol.access) && !symbol.deprecated && symbol.see.None? by {
        DetailsPresence(symbol);
      }
      None
  }

  /** The constructor: a term paragraph holding only the digest, and the
      descriptions. A failure of the summary parse (a `TypeError` in the
      source) is the constructor's failure. */
  function NewMemberDefinition(h: Helpers, symbol: Doclet, digest: Doclet -> Inline): (r: Result<MemberDefinition, string>)
    ensures r.Failure? <==> CreateSummaryBlocks(h, symbol).Failure?
    ensures r.Failure? ==> r.error == CreateSummaryBlocks(h, symbol).error
    ensures r.Success? ==> Paragraphs.GetInlineContents(r.value.term) == [digest(symbol)]
    ensures r.Success? ==>
              var blocks := CreateSummaryBlocks(h, symbol).value;
              var dl := CreateDetailDefinitionList(symbol);
              && |r.value.descriptions| == |blocks| + (if dl.Some? then 1 else 0)
              && (forall i :: 0 <= i < |blocks| ==> r.value.descriptions[i] == Summary(blocks[i]))
              && (dl.Some? ==> r.value.descriptions[|blocks|] == DetailList(dl.value))
  {
    var dt := Paragraphs.AddInlineContent(Paragraphs.NewParagraph([], TruthyInline), digest(symbol));
    match CreateSummaryBlocks(h, symbol)
    case Failure(e) => Failure(e)
    case Success(blocks) =>
      var dd := seq(|blocks|, i requires 0 <= i < |blocks| => Summary(blocks[i]));
      var dd := match CreateDetailDefinitionList(symbol)
                case Some(dl) => dd + [DetailList(dl)]
                case None => dd;
      Success(MemberDefinition(dt, dd))
  }

  /** The summary blocks read back from a descriptions array. */
  function SummaryOf(descriptions: seq<Description>): seq<Block> {
    if |descriptions| == 0 then []
    else if descriptions[0].Summary? then [descriptions[0].block] + SummaryOf(descriptions[1..])
    else SummaryOf(descriptions[1..])
  }

  /** The detail list read back from a descriptions array: its last element,
      when that is a list. */
  function DetailsOf(descriptions: seq<Description>): Option<seq<Detail>> {
    if |descriptions| > 0 && descriptions[|descriptions| - 1].DetailList?
    then Some(descriptions[|descriptions| - 1].details)
    else None
  }

  lemma {:induction false} SummaryOfSummaries(blocks: seq<Block>, tail: seq<Description>)
    requires forall d :: d in tail ==> d.DetailList?
    ensures SummaryOf(seq(|blocks|, i requires 0 <= i < |blocks| => Summary(blocks[i])) + tail) == blocks
    decreases |blocks|
  {
    var ds := seq(|blocks|, i requires 0 <= i < |blocks| => Summary(blocks[i])) + tail;
    if |blocks| == 0 {
      SummaryOfDetails(tail);
      assert ds == tail;
    } else {
      SummaryOfSummaries(blocks[1..], tail);
      assert ds[1..] == seq(|blocks[1..]|, i requires 0 <= i < |blocks[1..]| => Summary(blocks[1..][i])) + tail;
      assert blocks == [blocks[0]] + blocks[1..];
    }
  }

  lemma {:induction false} SummaryOfDetails(tail: seq<Description>)
    requires forall d :: d in tail ==> d.DetailList?
    ensures SummaryOf(tail) == []
    decreases |tail|
  {
    if |tail| > 0 {
      assert tail[0] in tail;
      assert forall d :: d in tail[1..] ==> d in tail;
      SummaryOfDetails(tail[1..]);
    }
  }

  /** A built definition gives back exactly the parsed summary and the detail
      list it was built from. */
  lemma MemberDefinitionReadsBack(h: Helpers, symbol: Doclet, digest: Doclet -> Inline)
    requires NewMemberDefinition(h, symbol, digest).Success?
    ensures var m := NewMemberDefinition(h, symbol, digest).value;
            && SummaryOf(m.descriptions) == CreateSummaryBlocks(h, symbol).value
            && DetailsOf(m.descriptions) == CreateDetailDefinitionList(symbol)
  {
    var m := NewMemberDefinition(h, symbol, digest).value;
    var blocks := CreateSummaryBlocks(h, symbol).value;
    var dd := seq(|blocks|, i requires 0 <= i < |blocks| => Summary(blocks[i]));
    match CreateDetailDefinitionList(symbol)
    case Some(dl) =>
      assert m.descriptions == dd + [DetailList(dl)];
      SummaryOfSummaries(blocks, [DetailList(dl)]);
    case None =>
      assert m.descriptions == dd + [];
      SummaryOfSummaries(blocks, []);
      assert |dd| > 0 ==> dd[|dd| - 1].Summary?;
  }

  /** An undocumented member with HTML disabled: one paragraph parsed from
      `NO_DESCRIPTION`, and no detail list. */
  lemma UndocumentedMember(h: Helpers, symbol: Doclet, digest: Doclet -> Inline)
    requires h.htmlDisabled
    requires symbol.description.None? && symbol.access.None? && !symbol.deprecated && symbol.see.None?
    ensures NewMemberDefinition(h, symbol, digest).Success?
    ensures NewMemberDefinition(h, symbol, digest).value.descriptions
            == [Summary(ParagraphBlock(ParagraphOf(InlineTags.ParseInlineTags(h.noDescription, Some(symbol), h.inlineTagDisabled))))]
  {
  }
}
