/** `jsdocref/publishing/DefinitionList.js`: a list of (caption, content, list
    type) definitions whose type defaults to the list's own type.

    JavaScript object identity matters to `removeDefinition` (it uses
    `indexOf`), so every definition carries an identity `ref`, drawn from a
    counter the list keeps; `Valid` states that identities in a list are
    distinct and below the counter. */
module DefinitionLists {
  import opened Wrappers
  import ContentArrays

  /** `DefinitionList.ListType`: NO_MARKER is 0, ORDERED 1, UNORDERED 2. */
  datatype ListType = NoMarker | Ordered | Unordered

  function ListTypeCode(t: ListType): nat {
    match t
    case NoMarker => 0
    case Ordered => 1
    case Unordered => 2
  }

  /** `opt_type || fallback`: an absent type and NO_MARKER (the number 0) are
      both falsy, so both yield the fallback. */
  function TypeOr(optType: Option<ListType>, fallback: ListType): (t: ListType)
    ensures optType.Some? && ListTypeCode(optType.value) != 0 ==> t == optType.value
    ensures !(optType.Some? && ListTypeCode(optType.value) != 0) ==> t == fallback
  {
    match optType
    case Some(Ordered) => Ordered
    case Some(Unordered) => Unordered
    case _ => fallback
  }

  /** A sentence (`Sentence.js` is not part of this model): either an existing
      sentence object, identified by `ref`, or one built around a raw value. */
  datatype Sentence = ExistingSentence(ref: nat) | WrappedSentence(raw: string)

  /** An argument given as a caption or content: a sentence or anything else. */
  datatype SentenceArg = IsSentence(sentence: Sentence) | NotSentence(raw: string)

  /** `caption instanceof Sentence ? caption : new Sentence(caption)`. */
  function AsSentence(arg: SentenceArg): (s: Sentence)
    ensures arg.IsSentence? ==> s == arg.sentence
    ensures arg.NotSentence? ==> s == WrappedSentence(arg.raw)
  {
    match arg
    case IsSentence(s) => s
    case NotSentence(v) => WrappedSentence(v)
  }

  datatype Definition = Definition(ref: nat, caption: Sentence, content: Sentence, listType: ListType)

  datatype DefinitionList = DefinitionList(definitions: seq<Definition>, listType: ListType, nextRef: nat)

  /** The result of `removeDefinition`: `null`, or the array `splice` returned. */
  datatype RemoveResult = Null | Spliced(removed: seq<Definition>)

  /** Identities are distinct and all were handed out by this list. */
  ghost predicate Valid(l: DefinitionList) {
    && (forall i :: 0 <= i < |l.definitions| ==> l.definitions[i].ref < l.nextRef)
    && (forall i, j :: 0 <= i < j < |l.definitions| ==> l.definitions[i].ref != l.definitions[j].ref)
  }

  /** `new DefinitionList(opt_type)`. */
  function NewDefinitionList(optType: Option<ListType>): (l: DefinitionList)
    ensures Valid(l) && |l.definitions| == 0
    ensures l.listType == TypeOr(optType, NoMarker)
  {
    DefinitionList([], TypeOr(optType, NoMarker), 0)
  }

  function GetListType(l: DefinitionList): ListType {
    l.listType
  }

  function GetDefinitions(l: DefinitionList): seq<Definition> {
    l.definitions
  }

  /** `new DefinitionList.Definition(caption, content, type)` with a fresh identity. */
  function NewDefinition(ref: nat, caption: SentenceArg, content: SentenceArg, listType: ListType): Definition {
    Definition(ref, AsSentence(caption), AsSentence(content), listType)
  }

  /** `appendDefinition(caption, content, opt_type)`: exactly one new
      definition at the end, typed `opt_type || this.getListType()`. */
  function AppendDefinition(l: DefinitionList, caption: SentenceArg, content: SentenceArg,
                            optType: Option<ListType>): (r: DefinitionList)
    ensures |r.definitions| == |l.definitions| + 1
    ensures r.definitions[..|l.definitions|] == l.definitions
    ensures var d := r.definitions[|l.definitions|];
            && d.caption == AsSentence(caption)
            && d.content == AsSentence(content)
            && d.listType == TypeOr(optType, l.listType)
            && d.ref == l.nextRef
    ensures r.listType == l.listType
    ensures Valid(l) ==> Valid(r)
  {
    var d := NewDefinition(l.nextRef, caption, content, TypeOr(optType, GetListType(l)));
    DefinitionList(l.definitions + [d], l.listType, l.nextRef + 1)
  }

  /** `removeDefinition(definition)`: `null` and no change when absent;
      otherwise the first occurrence is spliced out and the one-element array
      returned by `splice` (not the definition itself) is the result. */
  function RemoveDefinition(l: DefinitionList, d: Definition): (r: (DefinitionList, RemoveResult))
    ensures d !in l.definitions ==> r == (l, Null)
    ensures d in l.definitions ==>
              && r.1 == Spliced([d])
              && |r.0.definitions| == |l.definitions| - 1
              && r.0.listType == l.listType && r.0.nextRef == l.nextRef
              && exists k :: 0 <= k < |l.definitions| && l.definitions[k] == d && d !in l.definitions[..k]
                             && r.0.definitions == l.definitions[..k] + l.definitions[k + 1..]
    ensures Valid(l) ==> Valid(r.0)
  {
    var i := ContentArrays.IndexOf(l.definitions, d);
    if i >= 0 then
      var rest := l.definitions[..i] + l.definitions[i + 1..];
      assert forall j :: 0 <= j < |rest| ==> rest[j] == l.definitions[if j < i then j else j + 1];
      (DefinitionList(rest, l.listType, l.nextRef), Spliced([l.definitions[i]]))
    else
      (l, Null)
  }

  function GetDefinitionAt(l: DefinitionList, index: int): Option<Definition> {
    if 0 <= index < |l.definitions| then Some(l.definitions[index]) else None
  }

  /** `getDefinitionCaptionAt(index)`: `definition && definition.getCaption()`;
      a definition object is always truthy, so this is its caption, and
      `undefined` out of range. */
  function GetDefinitionCaptionAt(l: DefinitionList, index: int): Option<Sentence> {
    match GetDefinitionAt(l, index)
    case Some(d) => Some(d.caption)
    case None => None
  }

  /** `getDefinitionContentAt(index)`: as above, for the content. */
  function GetDefinitionContentAt(l: DefinitionList, index: int): Option<Sentence> {
    match GetDefinitionAt(l, index)
    case Some(d) => Some(d.content)
    case None => None
  }

  /** Lookups after appending: the new last index yields the given caption and
      content, wrapped when not sentences; earlier indices are unaffected; one
      past the end is `undefined`. */
  lemma AppendThenLookup(l: DefinitionList, caption: SentenceArg, content: SentenceArg,
                         optType: Option<ListType>, index: int)
    ensures var r := AppendDefinition(l, caption, content, optType);
            && GetDefinitionCaptionAt(r, |l.definitions|) == Some(AsSentence(caption))
            && GetDefinitionContentAt(r, |l.definitions|) == Some(AsSentence(content))
            && (index != |l.definitions| ==> GetDefinitionCaptionAt(r, index) == GetDefinitionCaptionAt(l, index))
            && GetDefinitionCaptionAt(r, |l.definitions| + 1).None?
  {
  }

  /** Asking for NO_MARKER on an ORDERED list yields an ORDERED definition,
      because 0 is falsy. */
  lemma NoMarkerIsFalsy(l: DefinitionList, caption: SentenceArg, content: SentenceArg)
    requires l.listType == Ordered
    ensures var r := AppendDefinition(l, caption, content, Some(NoMarker));
            r.definitions[|r.definitions| - 1].listType == Ordered
  {
  }

  /** In a valid list, removing the definition just appended takes it off
      again: the list returns to its previous definitions. */
  lemma AppendThenRemove(l: DefinitionList, caption: SentenceArg, content: SentenceArg,
                         optType: Option<ListType>)
    requires Valid(l)
    ensures var a := AppendDefinition(l, caption, content, optType);
            var d := a.definitions[|l.definitions|];
            var r := RemoveDefinition(a, d);
            r.0.definitions == l.definitions && r.1 == Spliced([d])
  {
    var a := AppendDefinition(l, caption, content, optType);
    var d := a.definitions[|l.definitions|];
    assert d !in l.definitions by {
      forall i | 0 <= i < |l.definitions| ensures l.definitions[i] != d {
        assert l.definitions[i].ref < l.nextRef;
      }
    }
    assert ContentArrays.IndexOf(a.definitions, d) == |l.definitions| by {
      assert a.definitions[..|l.definitions|] == l.definitions;
    }
  }
}
