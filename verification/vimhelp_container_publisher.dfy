/** `tsumekusa/publishing/vimhelp/VimHelpContainerPublisher.js` (the current
    generation): section numbers, the rule between sub-containers, the section
    header line and the indent of deep sections. The display width is the
    publisher's configured width (`vimhelp.TEXT_WIDTH`, 78 in the end-to-end
    document test). */
module VimHelpContainers {
  import opened Wrappers
  import opened JsStrings
  import opened ContainerTrees

  /** `SEPARATORS`: the rule character of the document level, then of the first
      section level. */
  const Separators: string := "=-"

  /** `createIndex(container)`: `N.` at depth one (and zero), a dotted number
      without a trailing dot deeper down. */
  function CreateIndex(p: Position): (r: string)
    ensures p.depth <= 1 ==> |r| >= 2 && r[|r| - 1] == '.'
    ensures WellFormed(p) && p.depth > 1 ==> |r| >= 3 && IsDigit(r[|r| - 1]) && '.' in r
  {
    if p.depth > 1 then
      if WellFormed(p) then
        DottedIndexShape(p);
        DottedIndex(p)
      else DottedIndex(p)
    else
      NatToString(p.index + 1) + "."
  }

  /** For every container below the document, the index is its path label:
      `1.` for the first top-level section, `1.1` for its first sub-section. */
  lemma CreateIndexIsPathLabel(rootIndex: nat, path: seq<nat>)
    requires |path| >= 1
    ensures CreateIndex(Follow(RootPosition(rootIndex), path)) == PathLabel(path)
  {
    FollowShape(RootPosition(rootIndex), path);
    if |path| >= 2 {
      DottedIndexIsPathLabel(rootIndex, path);
    }
  }

  /** The sample document of the end-to-end test: the document holds
      container1 (holding container2, holding container3) and container4. */
  lemma SampleDocumentLabels(rootIndex: nat)
    ensures CreateIndex(Follow(RootPosition(rootIndex), [0])) == "1."
    ensures CreateIndex(Follow(RootPosition(rootIndex), [0, 0])) == "1.1"
    ensures CreateIndex(Follow(RootPosition(rootIndex), [0, 0, 0])) == "1.1.1"
    ensures CreateIndex(Follow(RootPosition(rootIndex), [1])) == "2."
  {
    CreateIndexIsPathLabel(rootIndex, [0]);
    CreateIndexIsPathLabel(rootIndex, [1]);
    CreateIndexIsPathLabel(rootIndex, [0, 0]);
    CreateIndexIsPathLabel(rootIndex, [0, 0, 0]);
    ShortLabels();
    DeepLabels();
  }

  lemma ShortLabels()
    ensures PathLabel([0]) == "1." && PathLabel([1]) == "2."
  {
    assert NatToString(1) == "1";
    assert NatToString(2) == "2";
  }

  lemma DeepLabels()
    ensures PathLabel([0, 0]) == "1.1" && PathLabel([0, 0, 0]) == "1.1.1"
  {
    var one := NatToString(1);
    assert one == "1";
    assert OneBased([0, 0]) == [one, one];
    assert OneBased([0, 0, 0]) == [one, one, one];
    assert Join([one, one, one], ".") == "1" + "." + Join([one, one], ".");
  }

  /** `getSubContainerSeparator(container)`: below the document a newline-wrapped
      rule of `=` as wide as the display; below a top-level section the same with
      `-`; deeper, no rule at all (`null`). */
  function GetSubContainerSeparator(depth: nat, width: nat): (r: Option<string>)
    ensures r.Some? <==> depth < |Separators|
    ensures r.Some? ==>
              && |r.value| == width + 2
              && r.value[0] == '\n' && r.value[width + 1] == '\n'
              && forall i :: 1 <= i <= width ==> r.value[i] == (if depth == 0 then '=' else '-')
  {
    if depth < |Separators| then
      Some("\n" + Repeat(Separators[depth], width) + "\n")
    else
      None
  }

  /** In the sample document the document's sections are separated by `=`
      rules, container1's by `-` rules and container2's by none. */
  lemma SampleDocumentSeparators(rootIndex: nat, width: nat)
    ensures GetSubContainerSeparator(RootPosition(rootIndex).depth, width)
            == Some("\n" + Repeat('=', width) + "\n")
    ensures GetSubContainerSeparator(Follow(RootPosition(rootIndex), [0]).depth, width)
            == Some("\n" + Repeat('-', width) + "\n")
    ensures GetSubContainerSeparator(Follow(RootPosition(rootIndex), [0, 0]).depth, width).None?
  {
    FollowShape(RootPosition(rootIndex), [0]);
    FollowShape(RootPosition(rootIndex), [0, 0]);
  }

  /** `publishHeader(container)`: `fillMiddle(index + ' ' + caption, tag,
      width) + '\n'`, so the line starts with the index and the caption, ends
      with the published tag, and is padded to the display width. */
  function PublishHeader(p: Position, caption: string, publishedTag: string, width: nat): (r: string)
    ensures var head := CreateIndex(p) + " " + caption;
            && |r| == 1 + (if |head| + |publishedTag| >= width then |head| + |publishedTag| else width)
            && r[..|head|] == head
            && r[|r| - 1 - |publishedTag|..] == publishedTag + "\n"
  {
    var head := CreateIndex(p) + " " + caption;
    var line := FillMiddle(head, publishedTag, width);
    assert (line + "\n")[..|head|] == line[..|head|];
    line + "\n"
  }

  /** `getIndentWidthInternal(container)`: sections more than two levels below
      the document are indented by two columns. */
  function GetIndentWidthInternal(depth: nat): (r: nat)
    ensures r == 2 <==> depth > 2
    ensures r == 0 <==> depth <= 2
  {
    if depth > 2 then 2 else 0
  }

  /** The header of the sample's first section: `1. container1`, padded, then
      `*container1*`, 78 columns in all. */
  lemma SampleHeader(rootIndex: nat)
    ensures var r := PublishHeader(Follow(RootPosition(rootIndex), [0]), "container1", "*container1*", 78);
            |r| == 79 && r[..13] == "1. container1" && r[66..] == "*container1*\n"
  {
    SampleDocumentLabels(rootIndex);
  }
}
