/** `lib/dom/ParametersDefinition.js`: the "Parameters:" definition of a
    function, whose one description is a marker-less definition list with one
    definition per parameter tag. */
module ParametersDefinitions {
  import opened Wrappers
  import opened JsStrings
  import opened Doclets
  import opened Dom
  import opened DocElements
  import Paragraphs
  import DefinitionLists

  /** `ParametersDefinition.CAPTION`. */
  const Caption: string := "Parameters"

  /** `getCaption()`: the caption followed by a colon. */
  function GetCaption(): (r: string)
    ensures |r| == |Caption| + 1 && r[..|Caption|] == Caption && r[|Caption|] == ':'
  {
    Caption + ":"
  }

  /** One definition of the inner list: a paragraph holding the parameter
      term, and the blocks parsed from the parameter's description. */
  datatype ParamDefinition = ParamDefinition(term: Paragraphs.Paragraph<Inline>, description: seq<Block>)

  /** The inner `DefinitionList` with its list type and definitions. */
  datatype InnerList = InnerList(listType: DefinitionLists.ListType, definitions: seq<ParamDefinition>)

  datatype ParametersDefinition = ParametersDefinition(term: string, descriptions: seq<InnerList>)

  /** `ParameterDefinitionTerm(tag)`: the decorated name and the tag. */
  function ParamTermOf(h: Helpers, tag: Tag): (t: Inline)
    ensures t.ParamTerm? && t.name == h.decorateParamName(tag) && t.param == tag
  {
    ParamTerm(h.decorateParamName(tag), tag)
  }

  /** The definition one parameter tag contributes: its description, or
      `NO_DESCRIPTION`, parsed against the symbol. */
  function ParamDefinitionOf(h: Helpers, symbol: Doclet, tag: Tag): (r: Result<ParamDefinition, string>)
    ensures var parsed := ParseBlocks(h, StringOr(tag.description, h.noDescription), symbol);
            && (r.Failure? <==> parsed.Failure?)
            && (r.Failure? ==> r.error == parsed.error)
            && (r.Success? ==> r.value.description == parsed.value)
    ensures r.Success? ==> Paragraphs.GetInlineContents(r.value.term) == [ParamTermOf(h, tag)]
  {
    match ParseBlocks(h, StringOr(tag.description, h.noDescription), symbol)
    case Failure(e) => Failure(e)
    case Success(desc) => Success(ParamDefinition(Paragraphs.NewParagraph([ParamTermOf(h, tag)], TruthyInline), desc))
  }

  /** The `forEach` over the parameter tags: definitions in tag order; the
      first failing parse ends the construction. */
  function ParamDefinitions(h: Helpers, symbol: Doclet, tags: seq<Tag>): (r: Result<seq<ParamDefinition>, string>)
    ensures r.Success? ==> |r.value| == |tags|
    ensures r.Success? ==> forall i :: 0 <= i < |tags| ==> ParamDefinitionOf(h, symbol, tags[i]) == Success(r.value[i])
    decreases |tags|
  {
    if |tags| == 0 then Success([])
    else
      match ParamDefinitionOf(h, symbol, tags[0])
      case Failure(e) => Failure(e)
      case Success(d) =>
        match ParamDefinitions(h, symbol, tags[1..])
        case Failure(e) => Failure(e)
        case Success(ds) =>
          assert forall i :: 1 <= i < |tags| ==> tags[i] == tags[1..][i - 1];
          Success([d] + ds)
  }

  /** The construction fails exactly when some parameter's description fails
      to parse. */
  lemma {:induction false} ParamDefinitionsFailIff(h: Helpers, symbol: Doclet, tags: seq<Tag>)
    ensures ParamDefinitions(h, symbol, tags).Failure?
            <==> exists i :: 0 <= i < |tags| && ParamDefinitionOf(h, symbol, tags[i]).Failure?
    decreases |tags|
  {
    if |tags| > 0 {
      ParamDefinitionsFailIff(h, symbol, tags[1..]);
      if ParamDefinitionOf(h, symbol, tags[0]).Success? {
        if exists i :: 0 <= i < |tags| && ParamDefinitionOf(h, symbol, tags[i]).Failure? {
          var i :| 0 <= i < |tags| && ParamDefinitionOf(h, symbol, tags[i]).Failure?;
          assert tags[1..][i - 1] == tags[i];
        }
      }
    }
  }

  /** The constructor: the caption as term and exactly one inner NO_MARKER
      list, holding one definition per parameter tag, in order; an empty list
      when the symbol has no `params`. */
  function NewParametersDefinition(h: Helpers, symbol: Doclet): (r: Result<ParametersDefinition, string>)
    ensures r.Failure? <==> ParamDefinitions(h, symbol, ParamsOf(symbol)).Failure?
    ensures r.Success? ==> r.value.term == GetCaption()
    ensures r.Success? ==> |r.value.descriptions| == 1 && r.value.descriptions[0].listType == DefinitionLists.NoMarker
    ensures r.Success? ==>
              var defs := r.value.descriptions[0].definitions;
              && |defs| == |ParamsOf(symbol)|
              && (forall i :: 0 <= i < |defs| ==>
                    Paragraphs.GetInlineContents(defs[i].term) == [ParamTermOf(h, ParamsOf(symbol)[i])])
    ensures symbol.params.None? ==> r == Success(ParametersDefinition(GetCaption(), [InnerList(DefinitionLists.NoMarker, [])]))
  {
    match ParamDefinitions(h, symbol, ParamsOf(symbol))
    case Failure(e) => Failure(e)
    case Success(defs) => Success(ParametersDefinition(GetCaption(), [InnerList(DefinitionLists.NoMarker, defs)]))
  }

  /** A parameter without description is described by `NO_DESCRIPTION`. */
  lemma MissingDescriptionFallsBack(h: Helpers, symbol: Doclet, i: nat)
    requires NewParametersDefinition(h, symbol).Success?
    requires i < |ParamsOf(symbol)| && !Truthy(ParamsOf(symbol)[i].description)
    ensures NewParametersDefinition(h, symbol).value.descriptions[0].definitions[i].description
            == ParseBlocks(h, h.noDescription, symbol).value
  {
    var defs := ParamDefinitions(h, symbol, ParamsOf(symbol)).value;
    assert ParamDefinitionOf(h, symbol, ParamsOf(symbol)[i]) == Success(defs[i]);
  }

  /** `ParameterDefinitionTermImpl.prototype.isBreakable`: a term is never
      broken across lines. */
  function TermIsBreakable(t: Inline): (b: bool)
    requires t.ParamTerm?
    ensures !b
  {
    false
  }

  /** `ParameterDefinitionTermImpl.prototype.publish`: the published name, a
      colon and a space, and the published type. The term has no publisher of
      its own (`getPublisher` returns `null`), so this is how it is rendered. */
  function PublishTerm(h: Helpers, t: Inline): (r: string)
    requires t.ParamTerm?
    ensures |r| == |h.publishCode(t.name)| + 2 + |h.publishType(t.param)|
    ensures r[..|h.publishCode(t.name)|] == h.publishCode(t.name)
    ensures r[|r| - |h.publishType(t.param)|..] == h.publishType(t.param)
  {
    h.publishCode(t.name) + ": " + h.publishType(t.param)
  }

  /** When the published name has no colon, the first colon of the published
      term separates the name from the type. */
  lemma PublishTermSplits(h: Helpers, t: Inline)
    requires t.ParamTerm? && ':' !in h.publishCode(t.name)
    ensures var r := PublishTerm(h, t);
            var k := FirstIndexOf(r, ':');
            && k == |h.publishCode(t.name)|
            && r[..k] == h.publishCode(t.name)
            && r[k + 1] == ' '
            && r[k + 2..] == h.publishType(t.param)
  {
    var code := h.publishCode(t.name);
    FirstIndexOfAfter(code, ':', " " + h.publishType(t.param));
    assert PublishTerm(h, t) == code + [':'] + (" " + h.publishType(t.param));
  }
}
