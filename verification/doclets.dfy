/** The parts of a JSDoc doclet (a documented symbol) that the document
    builders read. The doclet comes from JSDoc's parser, which is not part of
    this model; only the fields below are consulted. */
module Doclets {
  import opened Wrappers

  /** A `@param` or `@returns` tag: its name (empty for returns), the names of
      its types, and its description when there is one. */
  datatype Tag = Tag(name: string, typeNames: seq<string>, description: Option<string>)

  /** `deprecated` is JSDoc's `true` or deprecation text; only its truthiness
      is ever consulted, so it is kept as a truth value. `see`, `params` and
      `returns` (here `returnTags`, as `returns` is a Dafny keyword) are arrays
      when present, and arrays are truthy even when empty. */
  datatype Doclet = Doclet(
    longname: string,
    memberof: Option<string>,
    description: Option<string>,
    access: Option<string>,
    deprecated: bool,
    see: Option<seq<string>>,
    params: Option<seq<Tag>>,
    returnTags: Option<seq<Tag>>)

  /** `tsumekusaJsdoc.hasParam(symbol)` (its source is not part of this model):
      the doclet has at least one parameter tag. */
  predicate HasParam(d: Doclet) {
    d.params.Some? && |d.params.value| > 0
  }

  /** `tsumekusaJsdoc.hasReturn(symbol)`: the doclet has at least one return tag. */
  predicate HasReturn(d: Doclet) {
    d.returnTags.Some? && |d.returnTags.value| > 0
  }

  /** The parameter tags, none when `params` is absent. */
  function ParamsOf(d: Doclet): (r: seq<Tag>)
    ensures d.params.Some? ==> r == d.params.value
    ensures d.params.None? ==> r == []
  {
    match d.params
    case Some(ps) => ps
    case None => []
  }
}
