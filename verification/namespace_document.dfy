/** `tsumekusaJsdoc/documents/NamespaceDocument.js`: the document of a
    namespace, with static methods and static properties that may each be set
    once. Unlike the class document, `publish` appends a container for every
    list that is set, an empty one included. */
module NamespaceDocuments {
  import opened Wrappers
  import opened Doclets
  import opened ClassDocuments

  /** `NamespaceDocument.CAPTION`. */
  const NamespaceCaption: string := "Namespace"

  datatype NamespaceDocument = NamespaceDocument(
    symbol: Doclet,
    staticMethods: Option<seq<Doclet>>,
    staticProperties: Option<seq<Doclet>>,
    subContainers: seq<MembersContainer>)

  /** The two kinds a namespace has. */
  predicate NamespaceKind(k: MemberKind) {
    k == StaticMethods || k == StaticProperties
  }

  function NewNamespaceDocument(symbol: Doclet): (d: NamespaceDocument)
    ensures d.symbol == symbol && d.subContainers == []
    ensures d.staticMethods.None? && d.staticProperties.None?
  {
    NamespaceDocument(symbol, None, None, [])
  }

  /** `getStaticMethods()` and `getStaticProperties()`. */
  function GetNamespaceMembers(d: NamespaceDocument, k: MemberKind): Option<seq<Doclet>>
    requires NamespaceKind(k)
  {
    if k == StaticMethods then d.staticMethods else d.staticProperties
  }

  /** `setStaticMethods(symbols)` and `setStaticProperties(symbols)`: the same
      set-once rule and messages as the class document. */
  function SetNamespaceMembers(d: NamespaceDocument, k: MemberKind, symbols: Option<seq<Doclet>>)
    : (r: Result<NamespaceDocument, string>)
    requires NamespaceKind(k)
    ensures GetNamespaceMembers(d, k).Some? <==> r.Failure?
    ensures r.Failure? ==> r.error == AlreadySet(k)
    ensures r.Success? ==> GetNamespaceMembers(r.value, k) == symbols
    ensures r.Success? ==> forall other :: NamespaceKind(other) && other != k
                             ==> GetNamespaceMembers(r.value, other) == GetNamespaceMembers(d, other)
    ensures r.Success? ==> r.value.symbol == d.symbol && r.value.subContainers == d.subContainers
  {
    if GetNamespaceMembers(d, k).Some? then Failure(AlreadySet(k))
    else if k == StaticMethods then Success(d.(staticMethods := symbols))
    else Success(d.(staticProperties := symbols))
  }

  /** The container for one kind: present whenever the list is set. */
  function NamespaceContainerFor(d: NamespaceDocument, k: MemberKind): (r: seq<MembersContainer>)
    requires NamespaceKind(k)
    ensures |r| <= 1
    ensures |r| == 1 <==> GetNamespaceMembers(d, k).Some?
    ensures |r| == 1 ==> r[0] == MembersContainer(k, d.symbol, GetNamespaceMembers(d, k).value)
  {
    match GetNamespaceMembers(d, k)
    case Some(members) => [MembersContainer(k, d.symbol, members)]
    case None => []
  }

  function NamespaceNewContainers(d: NamespaceDocument): seq<MembersContainer> {
    NamespaceContainerFor(d, StaticMethods) + NamespaceContainerFor(d, StaticProperties)
  }

  /** `publish()`: the static methods container, then the static properties
      container, each when its list is set; nothing guards a second call. */
  function PublishNamespace(d: NamespaceDocument): (r: NamespaceDocument)
    ensures |r.subContainers| == |d.subContainers| + |NamespaceNewContainers(d)|
    ensures r.subContainers[..|d.subContainers|] == d.subContainers
    ensures r.subContainers[|d.subContainers|..] == NamespaceNewContainers(d)
    ensures r.symbol == d.symbol && r.staticMethods == d.staticMethods && r.staticProperties == d.staticProperties
  {
    d.(subContainers := d.subContainers + NamespaceNewContainers(d))
  }

  /** Only static methods and static properties are ever appended, each
      exactly when its list is set, in that order. */
  lemma NamespacePublishesSetLists(d: NamespaceDocument)
    ensures var cs := NamespaceNewContainers(d);
            && (forall c :: c in cs ==> NamespaceKind(c.kind))
            && (forall i, j :: 0 <= i < j < |cs| ==> Rank(cs[i].kind) < Rank(cs[j].kind))
            && ((exists c :: c in cs && c.kind == StaticMethods) <==> d.staticMethods.Some?)
            && ((exists c :: c in cs && c.kind == StaticProperties) <==> d.staticProperties.Some?)
  {
    var cs := NamespaceNewContainers(d);
    if d.staticMethods.Some? {
      assert NamespaceContainerFor(d, StaticMethods)[0] in cs;
    }
    if d.staticProperties.Some? {
      assert NamespaceContainerFor(d, StaticProperties)[0] in cs;
    }
  }

  /** An empty list set on a namespace still gets its container, where the
      class document would append none. */
  lemma EmptyListStillPublished(symbol: Doclet)
    ensures var d := SetNamespaceMembers(NewNamespaceDocument(symbol), StaticMethods, Some([])).value;
            PublishNamespace(d).subContainers == [MembersContainer(StaticMethods, symbol, [])]
    ensures var c := SetMembers(NewClassDocument(symbol), StaticMethods, Some([])).value;
            Publish(c).subContainers == []
  {
    var c := SetMembers(NewClassDocument(symbol), StaticMethods, Some([])).value;
    assert forall k :: GetMembers(c, k).None? || GetMembers(c, k) == Some([]);
    assert ContainerFor(c, StaticMethods) == [];
    assert ContainerFor(c, StaticProperties) == [];
    assert ContainerFor(c, InstanceMethods) == [];
    assert ContainerFor(c, InstanceProperties) == [];
  }

  /** Publishing again appends the same containers again. */
  lemma NamespacePublishTwice(d: NamespaceDocument)
    ensures PublishNamespace(PublishNamespace(d)).subContainers
            == d.subContainers + NamespaceNewContainers(d) + NamespaceNewContainers(d)
  {
    assert NamespaceNewContainers(PublishNamespace(d)) == NamespaceNewContainers(d);
  }
}
