/** `lib/dom/FunctionDigest.js`: the one-line digest of a function, such as
    `foo.bar(a, b) -> string`. The published forms of inline code and types
    come from the collaborators record. */
module FunctionDigests {
  import opened Wrappers
  import opened JsStrings
  import opened Doclets
  import opened DocElements

  /** One parameter entry: the published decorated name, followed by a space
      and the published type when `FunctionDigest.VERBOSE_PARAM` is truthy. */
  function ParamEntry(h: Helpers, tag: Tag, verbose: bool): (r: string)
    ensures !verbose ==> r == h.publishCode(h.decorateParamName(tag))
    ensures verbose ==> var name := h.publishCode(h.decorateParamName(tag));
                        |r| == |name| + 1 + |h.publishType(tag)| && r[..|name|] == name
                        && r[|name|] == ' ' && r[|name| + 1..] == h.publishType(tag)
  {
    var name := h.publishCode(h.decorateParamName(tag));
    if verbose then name + " " + h.publishType(tag) else name
  }

  /** The entries of the parameter tags, in declaration order. */
  function ParamEntries(h: Helpers, tags: seq<Tag>, verbose: bool): (r: seq<string>)
    ensures |r| == |tags|
    ensures forall i :: 0 <= i < |tags| ==> r[i] == ParamEntry(h, tags[i], verbose)
  {
    seq(|tags|, i requires 0 <= i < |tags| => ParamEntry(h, tags[i], verbose))
  }

  /** The published types of the return tags. */
  function ReturnTypes(h: Helpers, tags: seq<Tag>): (r: seq<string>)
    ensures |r| == |tags|
    ensures forall i :: 0 <= i < |tags| ==> r[i] == h.publishType(tags[i])
  {
    seq(|tags|, i requires 0 <= i < |tags| => h.publishType(tags[i]))
  }

  /** The head of every digest: the published long name and `(`. */
  function Head(h: Helpers, symbol: Doclet): string {
    h.publishCode(symbol.longname) + "("
  }

  /** What stands between the parentheses: the entries joined by `, ` when
      the symbol has parameters, nothing otherwise. */
  function ParamsText(h: Helpers, symbol: Doclet, verbose: bool): string {
    if HasParam(symbol) then Join(ParamEntries(h, symbol.params.value, verbose), ", ") else ""
  }

  /** What follows `)`: ` -> ` and the return types when the symbol has
      return tags. The types are an array placed in the pieces that are joined
      with `''`, so they are stringified with `,` and no space. */
  function ReturnsText(h: Helpers, symbol: Doclet): string {
    if HasReturn(symbol) then " -> " + Join(ReturnTypes(h, symbol.returnTags.value), ",") else ""
  }

  /** `publish()`. */
  function PublishDigest(h: Helpers, symbol: Doclet, verbose: bool): (r: string)
    ensures var head := Head(h, symbol);
            var ps := ParamsText(h, symbol, verbose);
            var rs := ReturnsText(h, symbol);
            && |r| == |head| + |ps| + 1 + |rs|
            && r[..|head|] == head
            && r[|head|..|head| + |ps|] == ps
            && r[|head| + |ps|] == ')'
            && r[|head| + |ps| + 1..] == rs
    ensures !HasParam(symbol) && !HasReturn(symbol) ==> r == h.publishCode(symbol.longname) + "()"
  {
    var head := Head(h, symbol);
    var ps := ParamsText(h, symbol, verbose);
    var rs := ReturnsText(h, symbol);
    var r := head + ps + ")" + rs;
    assert r[..|head|] == head;
    assert r[|head|..|head| + |ps|] == ps;
    assert r[|head| + |ps| + 1..] == rs;
    r
  }

  /** A digest with no return types ends with `)`; one with return types ends
      with ` -> ` and the types. */
  lemma DigestEnding(h: Helpers, symbol: Doclet, verbose: bool)
    ensures var r := PublishDigest(h, symbol, verbose);
            !HasReturn(symbol) ==> r[|r| - 1] == ')'
    ensures HasReturn(symbol) ==>
              var r := PublishDigest(h, symbol, verbose);
              var types := Join(ReturnTypes(h, symbol.returnTags.value), ",");
              |r| >= |types| + 5 && r[|r| - |types| - 4..|r| - |types|] == " -> "
                                  && r[|r| - |types|..] == types
  {
    var r := PublishDigest(h, symbol, verbose);
    if HasReturn(symbol) {
      var types := Join(ReturnTypes(h, symbol.returnTags.value), ",");
      var k := |r| - |ReturnsText(h, symbol)|;
      assert r[k..] == " -> " + types;
      assert r[|r| - |types| - 4..|r| - |types|] == r[k..][..4];
      assert r[|r| - |types|..] == r[k..][4..];
    }
  }

  /** Each piece after the first, with the space that follows the comma. */
  function Spaced(xs: seq<string>): (r: seq<string>)
    ensures |r| == |xs|
    ensures forall i :: 0 <= i < |xs| ==> r[i] == " " + xs[i]
  {
    seq(|xs|, i requires 0 <= i < |xs| => " " + xs[i])
  }

  /** A space followed by a `, `-join is the `,`-join of the spaced pieces. */
  lemma {:induction false} SpacedJoin(ys: seq<string>)
    requires |ys| >= 1
    ensures " " + Join(ys, ", ") == Join(Spaced(ys), ",")
    decreases |ys|
  {
    if |ys| > 1 {
      SpacedJoin(ys[1..]);
      assert Spaced(ys)[1..] == Spaced(ys[1..]);
      assert " " + Join(ys, ", ") == (" " + ys[0]) + "," + (" " + Join(ys[1..], ", "));
    }
  }

  /** Reading a `, `-separated list back: split on `,` and drop the space
      after each comma. */
  function Unjoin(s: string): (r: seq<string>)
  {
    var parts := Split(s, ',');
    seq(|parts|, i requires 0 <= i < |parts| =>
      if i > 0 && |parts[i]| > 0 && parts[i][0] == ' ' then parts[i][1..] else parts[i])
  }

  /** Pieces free of commas come back from their `, `-join. */
  lemma UnjoinJoin(xs: seq<string>)
    requires |xs| >= 1
    requires forall i :: 0 <= i < |xs| ==> ',' !in xs[i]
    ensures Unjoin(Join(xs, ", ")) == xs
  {
    var pieces := [xs[0]] + Spaced(xs[1..]);
    JoinAsCommaJoin(xs, pieces);
    PiecesCommaFree(xs);
    SplitJoin(pieces, ',');
    UnjoinPieces(xs, pieces);
  }

  /** A `, `-join is the `,`-join of the first piece and the spaced rest. */
  lemma JoinAsCommaJoin(xs: seq<string>, pieces: seq<string>)
    requires |xs| >= 1 && pieces == [xs[0]] + Spaced(xs[1..])
    ensures Join(xs, ", ") == Join(pieces, [','])
  {
    if |xs| > 1 {
      JoinAsCommaJoinLong(xs, pieces);
    } else {
      assert pieces == xs;
    }
  }

  lemma JoinAsCommaJoinLong(xs: seq<string>, pieces: seq<string>)
    requires |xs| > 1 && pieces == [xs[0]] + Spaced(xs[1..])
    ensures Join(xs, ", ") == Join(pieces, [','])
  {
    var rest := Join(xs[1..], ", ");
    var spaced := Spaced(xs[1..]);
    assert pieces[1..] == spaced;
    assert Join(pieces, [',']) == xs[0] + [','] + Join(spaced, [',']);
    SpacedJoin(xs[1..]);
    assert Join(spaced, [',']) == " " + rest;
    assert xs[0] + ", " + rest == xs[0] + [','] + (" " + rest);
  }

  lemma PiecesCommaFree(xs: seq<string>)
    requires |xs| >= 1
    requires forall i :: 0 <= i < |xs| ==> ',' !in xs[i]
    ensures var pieces := [xs[0]] + Spaced(xs[1..]);
            forall i :: 0 <= i < |pieces| ==> ',' !in pieces[i]
  {
    var pieces := [xs[0]] + Spaced(xs[1..]);
    forall i | 0 <= i < |pieces|
      ensures ',' !in pieces[i]
    {
      if i > 0 {
        assert pieces[i] == " " + xs[i];
      }
    }
  }

  lemma UnjoinPieces(xs: seq<string>, pieces: seq<string>)
    requires |xs| >= 1 && pieces == [xs[0]] + Spaced(xs[1..])
    requires Split(Join(xs, ", "), ',') == pieces
    ensures Unjoin(Join(xs, ", ")) == xs
  {
    var u := Unjoin(Join(xs, ", "));
    assert |u| == |xs|;
    forall i | 0 <= i < |xs|
      ensures u[i] == xs[i]
    {
      if i > 0 {
        assert pieces[i] == " " + xs[i];
        assert pieces[i][1..] == xs[i];
      }
    }
  }

  /** With `VERBOSE_PARAM` unset, the text between the parentheses gives back
      the published parameter names, in order, when none of them holds a
      comma. */
  lemma DigestParamNamesRoundTrip(h: Helpers, symbol: Doclet)
    requires HasParam(symbol)
    requires forall t :: t in symbol.params.value ==> ',' !in h.publishCode(h.decorateParamName(t))
    ensures var r := PublishDigest(h, symbol, false);
            var start := |Head(h, symbol)|;
            var end := |r| - |ReturnsText(h, symbol)| - 1;
            && start <= end
            && Unjoin(r[start..end]) == ParamEntries(h, symbol.params.value, false)
            && forall i :: 0 <= i < |symbol.params.value| ==>
                 Unjoin(r[start..end])[i] == h.publishCode(h.decorateParamName(symbol.params.value[i]))
  {
    var entries := ParamEntries(h, symbol.params.value, false);
    forall i | 0 <= i < |entries|
      ensures ',' !in entries[i]
    {
      assert symbol.params.value[i] in symbol.params.value;
    }
    UnjoinJoin(entries);
  }

  /** The return types come back from the end of the digest when none of them
      holds a comma. */
  lemma DigestReturnTypesRoundTrip(h: Helpers, symbol: Doclet, verbose: bool)
    requires HasReturn(symbol)
    requires forall t :: t in symbol.returnTags.value ==> ',' !in h.publishType(t)
    ensures var r := PublishDigest(h, symbol, verbose);
            var types := Join(ReturnTypes(h, symbol.returnTags.value), ",");
            |types| <= |r| && Split(r[|r| - |types|..], ',') == ReturnTypes(h, symbol.returnTags.value)
  {
    DigestEnding(h, symbol, verbose);
    var ts := ReturnTypes(h, symbol.returnTags.value);
    forall i | 0 <= i < |ts|
      ensures ',' !in ts[i]
    {
      assert symbol.returnTags.value[i] in symbol.returnTags.value;
    }
    SplitJoin(ts, ',');
  }
}
