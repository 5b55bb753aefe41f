/** `tsumekusaJsdoc/documents/ClassDocument.js`: the document of a class, with
    four member lists that may each be set once, and a publisher that appends
    one members container for every list that is set and not empty.

    The members containers themselves (`StaticMethodsContainer` and the
    others) and `SymbolDocument.publish` are not part of this model; a
    container is represented by its kind, its owner and its members, and
    publishing by the containers it appends to the document. */
module ClassDocuments {
  import opened Wrappers
  import opened Doclets

  /** `ClassDocument.CAPTION`. */
  const Caption: string := "Class"

  /** The four member lists, in the order `publish` visits them. */
  datatype MemberKind = StaticMethods | StaticProperties | InstanceMethods | InstanceProperties

  /** The position of a kind in the publishing order. */
  function Rank(k: MemberKind): (n: nat)
    ensures n < 4
  {
    match k
    case StaticMethods => 0
    case StaticProperties => 1
    case InstanceMethods => 2
    case InstanceProperties => 3
  }

  /** The error each setter throws when its list is already set. */
  function AlreadySet(k: MemberKind): string {
    match k
    case StaticMethods => "Static methods were already set."
    case StaticProperties => "Static properties were already set."
    case InstanceMethods => "Instance methods were already set."
    case InstanceProperties => "Instance properties were already set."
  }

  /** A members container: which members, of which symbol. */
  datatype MembersContainer = MembersContainer(kind: MemberKind, owner: Doclet, members: seq<Doclet>)

  /** The document: its symbol, the four lists (`null` until set) and the sub
      containers appended to its content so far. */
  datatype ClassDocument = ClassDocument(
    symbol: Doclet,
    staticMethods: Option<seq<Doclet>>,
    staticProperties: Option<seq<Doclet>>,
    instanceMethods: Option<seq<Doclet>>,
    instanceProperties: Option<seq<Doclet>>,
    subContainers: seq<MembersContainer>)

  /** `new ClassDocument(symbol, ...)`: nothing set, nothing appended. */
  function NewClassDocument(symbol: Doclet): (d: ClassDocument)
    ensures d.symbol == symbol && d.subContainers == []
    ensures forall k :: GetMembers(d, k).None?
  {
    ClassDocument(symbol, None, None, None, None, [])
  }

  /** `getStaticMethods()` and the three other getters. */
  function GetMembers(d: ClassDocument, k: MemberKind): Option<seq<Doclet>> {
    match k
    case StaticMethods => d.staticMethods
    case StaticProperties => d.staticProperties
    case InstanceMethods => d.instanceMethods
    case InstanceProperties => d.instanceProperties
  }

  /** `setStaticMethods(symbols)` and the three other setters: a list that is
      already set (any array, even an empty one, is truthy) makes the setter
      throw; otherwise the argument is stored, `null` included, and nothing
      else changes. */
  function SetMembers(d: ClassDocument, k: MemberKind, symbols: Option<seq<Doclet>>): (r: Result<ClassDocument, string>)
    ensures GetMembers(d, k).Some? <==> r.Failure?
    ensures r.Failure? ==> r.error == AlreadySet(k)
    ensures r.Success? ==> GetMembers(r.value, k) == symbols
    ensures r.Success? ==> forall other :: other != k ==> GetMembers(r.value, other) == GetMembers(d, other)
    ensures r.Success? ==> r.value.symbol == d.symbol && r.value.subContainers == d.subContainers
  {
    if GetMembers(d, k).Some? then Failure(AlreadySet(k))
    else
      match k
      case StaticMethods => Success(d.(staticMethods := symbols))
      case StaticProperties => Success(d.(staticProperties := symbols))
      case InstanceMethods => Success(d.(instanceMethods := symbols))
      case InstanceProperties => Success(d.(instanceProperties := symbols))
  }

  /** Setting a list, even to `[]`, and then setting it again throws. */
  lemma SetTwiceFails(d: ClassDocument, k: MemberKind, first: seq<Doclet>, second: Option<seq<Doclet>>)
    requires SetMembers(d, k, Some(first)).Success?
    ensures SetMembers(SetMembers(d, k, Some(first)).value, k, second) == Failure(AlreadySet(k))
  {
  }

  /** Setting `null` leaves the list settable. */
  lemma SetNullThenSet(d: ClassDocument, k: MemberKind, symbols: Option<seq<Doclet>>)
    requires GetMembers(d, k).None?
    ensures SetMembers(SetMembers(d, k, None).value, k, symbols).Success?
    ensures GetMembers(SetMembers(SetMembers(d, k, None).value, k, symbols).value, k) == symbols
  {
  }

  /** Setting two different lists gives the same document in either order. */
  lemma SettersCommute(d: ClassDocument, k1: MemberKind, k2: MemberKind, s1: Option<seq<Doclet>>, s2: Option<seq<Doclet>>)
    requires k1 != k2
    requires GetMembers(d, k1).None? && GetMembers(d, k2).None?
    ensures SetMembers(d, k1, s1).Success? && SetMembers(d, k2, s2).Success?
    ensures SetMembers(SetMembers(d, k1, s1).value, k2, s2) == SetMembers(SetMembers(d, k2, s2).value, k1, s1)
  {
  }

  /** A list `publish` makes a container for: set and not empty. */
  predicate Publishable(members: Option<seq<Doclet>>) {
    members.Some? && |members.value| > 0
  }

  /** The container for one kind, if `publish` appends one. */
  function ContainerFor(d: ClassDocument, k: MemberKind): (r: seq<MembersContainer>)
    ensures |r| <= 1
    ensures |r| == 1 <==> Publishable(GetMembers(d, k))
    ensures |r| == 1 ==> r[0] == MembersContainer(k, d.symbol, GetMembers(d, k).value)
  {
    if Publishable(GetMembers(d, k)) then [MembersContainer(k, d.symbol, GetMembers(d, k).value)] else []
  }

  /** The containers one `publish` appends, in its order. */
  function NewContainers(d: ClassDocument): seq<MembersContainer> {
    ContainerFor(d, StaticMethods) + ContainerFor(d, StaticProperties)
    + ContainerFor(d, InstanceMethods) + ContainerFor(d, InstanceProperties)
  }

  /** `publish()`: the containers appended to the document's content. There is
      no guard against publishing twice. */
  function Publish(d: ClassDocument): (r: ClassDocument)
    ensures |r.subContainers| == |d.subContainers| + |NewContainers(d)|
    ensures r.subContainers[..|d.subContainers|] == d.subContainers
    ensures r.subContainers[|d.subContainers|..] == NewContainers(d)
    ensures forall k :: GetMembers(r, k) == GetMembers(d, k)
    ensures r.symbol == d.symbol
  {
    d.(subContainers := d.subContainers + NewContainers(d))
  }

  /** A container of kind `k` is appended exactly when the `k` list is set and
      not empty, and it holds that list and the document's symbol. */
  lemma PublishAppendsIff(d: ClassDocument, k: MemberKind)
    ensures (exists c :: c in NewContainers(d) && c.kind == k) <==> Publishable(GetMembers(d, k))
    ensures forall c :: c in NewContainers(d) ==> c == MembersContainer(c.kind, d.symbol, GetMembers(d, c.kind).value)
  {
    var sm, sp := ContainerFor(d, StaticMethods), ContainerFor(d, StaticProperties);
    var im, ip := ContainerFor(d, InstanceMethods), ContainerFor(d, InstanceProperties);
    assert forall c :: c in NewContainers(d) <==> c in sm || c in sp || c in im || c in ip;
    if Publishable(GetMembers(d, k)) {
      assert ContainerFor(d, k)[0] in NewContainers(d);
    }
  }

  /** The appended containers come in the fixed order static methods, static
      properties, instance methods, instance properties. */
  lemma PublishOrdered(d: ClassDocument)
    ensures var cs := NewContainers(d);
            forall i, j :: 0 <= i < j < |cs| ==> Rank(cs[i].kind) < Rank(cs[j].kind)
  {
  }

  /** Publishing again appends the same containers again. */
  lemma PublishTwice(d: ClassDocument)
    ensures Publish(Publish(d)).subContainers == d.subContainers + NewContainers(d) + NewContainers(d)
  {
    assert NewContainers(Publish(d)) == NewContainers(d) by {
      assert forall k :: ContainerFor(Publish(d), k) == ContainerFor(d, k);
    }
  }

  /** A freshly built document whose lists are all set but empty publishes
      nothing. */
  lemma EmptyListsPublishNothing(d: ClassDocument)
    requires forall k :: GetMembers(d, k) == Some([])
    ensures Publish(d).subContainers == d.subContainers
  {
    assert ContainerFor(d, StaticMethods) == [];
    assert ContainerFor(d, StaticProperties) == [];
    assert ContainerFor(d, InstanceMethods) == [];
    assert ContainerFor(d, InstanceProperties) == [];
  }
}
