/** `tsumekusa/contents/Link.js`: an inline link to a reference ID. Its
    publisher is not part of this model; its published form is taken from the
    link publisher's test: the ID between vertical bars. */
module Links {

  datatype Link = Link(targetReferenceId: string)

  /** `new Link(tgtId)`. */
  function NewLink(tgtId: string): (l: Link)
    ensures GetTargetReferenceId(l) == tgtId
  {
    SetTargetReferenceId(Link(""), tgtId)
  }

  /** `setTargetReferenceId(tgtId)`: overwrites the stored ID; the chained
      `this` is the returned link. */
  function SetTargetReferenceId(l: Link, tgtId: string): (r: Link)
    ensures GetTargetReferenceId(r) == tgtId
  {
    l.(targetReferenceId := tgtId)
  }

  function GetTargetReferenceId(l: Link): string {
    l.targetReferenceId
  }

  /** `isBreakable()`: a link is never broken across lines. */
  function IsBreakable(l: Link): (b: bool)
    ensures !b
  {
    false
  }

  /** A link is published as its target between vertical bars (vim help's
      hot-link syntax). */
  function PublishLink(l: Link): (r: string)
    ensures |r| == |GetTargetReferenceId(l)| + 2
    ensures r[0] == '|' && r[|r| - 1] == '|'
    ensures r[1..|r| - 1] == GetTargetReferenceId(l)
  {
    "|" + l.targetReferenceId + "|"
  }

  /** Reading a published link back: the text between the bars. */
  function TargetOfPublished(s: string): string
    requires |s| >= 2
  {
    s[1..|s| - 1]
  }

  /** The last setting wins, and the published text yields the target back. */
  lemma LinkRoundTrips(l: Link, a: string, b: string)
    ensures SetTargetReferenceId(SetTargetReferenceId(l, a), b) == NewLink(b)
    ensures TargetOfPublished(PublishLink(NewLink(a))) == a
  {
  }

  /** The published form of a link to `foo.bar`. */
  lemma PublishFooBar()
    ensures PublishLink(NewLink("foo.bar")) == "|foo.bar|"
  {
  }
}
