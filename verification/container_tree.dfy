/** The position of a container in a document's section tree, as the container
    publishers read it through `getDepth`, `getIndex` and `getAncestors`, and
    the dotted section number both generations of the vim-help container
    publisher build from it. (`Container.js` is not part of this model; the
    shape below is the one the end-to-end document test exercises.)

    A position records the container's depth (the document itself is 0), its
    0-based index among its siblings, and the indices of its ancestors from the
    document down to its parent. The document's own index is never displayed. */
module ContainerTrees {
  import opened JsStrings

  datatype Position = Position(depth: nat, index: nat, ancestors: seq<nat>)

  /** Positions that arise in a tree: one ancestor per level above. */
  predicate WellFormed(p: Position) {
    |p.ancestors| == p.depth
  }

  /** The position of the document itself. */
  function RootPosition(rootIndex: nat): (p: Position)
    ensures WellFormed(p) && p.depth == 0
  {
    Position(0, rootIndex, [])
  }

  /** The position of the `i`-th sub-container of a container at `parent`. */
  function ChildPosition(parent: Position, i: nat): (p: Position)
    ensures WellFormed(parent) ==> WellFormed(p)
    ensures p.depth == parent.depth + 1 && p.index == i
  {
    Position(parent.depth + 1, i, parent.ancestors + [parent.index])
  }

  /** The position reached from `start` by following sub-container indices. */
  function Follow(start: Position, path: seq<nat>): Position
    decreases |path|
  {
    if |path| == 0 then start
    else Follow(ChildPosition(start, path[0]), path[1..])
  }

  /** Following a path from the document adds one level per step, ends at the
      path's last index, and records the document and the path's prefix as
      ancestors. */
  lemma {:induction false} FollowShape(start: Position, path: seq<nat>)
    requires |path| >= 1
    ensures var p := Follow(start, path);
            && p.depth == start.depth + |path|
            && p.index == path[|path| - 1]
            && p.ancestors == start.ancestors + [start.index] + path[..|path| - 1]
    decreases |path|
  {
    if |path| > 1 {
      FollowShape(ChildPosition(start, path[0]), path[1..]);
      assert [path[0]] + path[1..][..|path| - 2] == path[..|path| - 1];
    }
  }

  /** 1-based rendering of 0-based indices. */
  function OneBased(xs: seq<nat>): (r: seq<string>)
    ensures |r| == |xs|
    ensures forall i :: 0 <= i < |xs| ==> r[i] == NatToString(xs[i] + 1)
  {
    seq(|xs|, i requires 0 <= i < |xs| => NatToString(xs[i] + 1))
  }

  /** The dotted index both publishers use below the top level: ancestors plus
      the container itself, each index plus one, the document's entry dropped
      (`idxs.shift()`), joined with `.`. */
  function DottedIndex(p: Position): string {
    var idxs := OneBased(p.ancestors + [p.index]);
    Join(idxs[1..], ".")
  }

  /** With two or more levels below the document the dotted index has a dot
      inside and ends with a digit. */
  lemma DottedIndexShape(p: Position)
    requires |p.ancestors| >= 2
    ensures var r := DottedIndex(p);
            |r| >= 3 && IsDigit(r[|r| - 1]) && '.' in r
  {
    var idxs := OneBased(p.ancestors + [p.index])[1..];
    JoinEndsWithLast(idxs, ".");
    var last := idxs[|idxs| - 1];
    var r := Join(idxs, ".");
    assert r == idxs[0] + "." + Join(idxs[1..], ".");
    assert r[|idxs[0]|] == '.';
    JoinEndsWithLast(idxs[1..], ".");
    assert IsDigit(last[|last| - 1]);
  }

  /** Reference definition: the section number of the container at `path` below
      the document, `1.` style at the top level and `1.2.3` style deeper. */
  function PathLabel(path: seq<nat>): string
    requires |path| >= 1
  {
    if |path| == 1 then NatToString(path[0] + 1) + "."
    else Join(OneBased(path), ".")
  }

  /** Below the top level the dotted index is exactly the path label. */
  lemma DottedIndexIsPathLabel(rootIndex: nat, path: seq<nat>)
    requires |path| >= 2
    ensures DottedIndex(Follow(RootPosition(rootIndex), path)) == PathLabel(path)
  {
    var p := Follow(RootPosition(rootIndex), path);
    FollowShape(RootPosition(rootIndex), path);
    assert p.ancestors == [rootIndex] + path[..|path| - 1] by {
      assert RootPosition(rootIndex).ancestors + [rootIndex] == [rootIndex];
    }
    DottedIndexOfAncestry(p, rootIndex, path);
  }

  lemma DottedIndexOfAncestry(p: Position, rootIndex: nat, path: seq<nat>)
    requires |path| >= 2
    requires p.ancestors == [rootIndex] + path[..|path| - 1]
    requires p.index == path[|path| - 1]
    ensures DottedIndex(p) == PathLabel(path)
  {
    var xs := p.ancestors + [p.index];
    assert xs[1..] == path;
    var a := OneBased(xs)[1..];
    assert a == OneBased(path);
  }

  /** The dotted index can be read back: splitting it on `.` gives the 1-based
      numbers of the levels below the document, in order. */
  lemma DottedIndexParses(p: Position)
    requires |p.ancestors| >= 1
    ensures var parts := Split(DottedIndex(p), '.');
            && |parts| == |p.ancestors|
            && (forall i :: 0 <= i < |parts| ==>
                  (forall k :: 0 <= k < |parts[i]| ==> IsDigit(parts[i][k]))
                  && ParseDecimal(parts[i]) == (p.ancestors + [p.index])[i + 1] + 1)
  {
    var xs := p.ancestors + [p.index];
    var idxs := OneBased(xs)[1..];
    forall i | 0 <= i < |idxs| ensures '.' !in idxs[i] {
      NatToStringHasNoDot(xs[i + 1] + 1);
    }
    SplitJoin(idxs, '.');
    forall i | 0 <= i < |idxs|
      ensures ParseDecimal(idxs[i]) == xs[i + 1] + 1
    {
      ParseNatToString(xs[i + 1] + 1);
    }
  }
}
