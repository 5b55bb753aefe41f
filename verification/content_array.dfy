/** `tsumekusa/contents/ContentArray.js`: an ordered, index-addressable list of
    children with insertion at an index and removal by value or by index.

    Two JavaScript details are kept: `addChildAt` inserts through
    `Array.prototype.splice`, whose start index is clamped (a negative index
    counts from the end), and `removeChildAt` only removes when the slot holds a
    TRUTHY value, so a child such as `''` can never be removed. Element
    truthiness is therefore a parameter of the removal operations. */
module ContentArrays {
  import opened Wrappers

  datatype ContentArray<T> = ContentArray(children: seq<T>)

  /** The result of a removal: the array afterwards (`after`) and the removed child, or
      `None` for the `null` the source returns when nothing was removed. */
  datatype Removal<T> = Removal(after: ContentArray<T>, removed: Option<T>)

  /** The constructor: no children. */
  function Empty<T>(): (a: ContentArray<T>)
    ensures GetCount(a) == 0 && !HasChildren(a)
  {
    ContentArray([])
  }

  function GetCount<T>(a: ContentArray<T>): nat {
    |a.children|
  }

  function GetChildren<T>(a: ContentArray<T>): seq<T> {
    a.children
  }

  /** `children_[index]`: `undefined` (here `None`) outside `0 .. count-1`. */
  function GetChildAt<T>(a: ContentArray<T>, index: int): Option<T> {
    if 0 <= index < |a.children| then Some(a.children[index]) else None
  }

  function HasChildren<T>(a: ContentArray<T>): bool {
    |a.children| != 0
  }

  /** An array has children exactly when its count is non-zero, and each index
      below the count addresses a child. */
  lemma CountAndChildren<T>(a: ContentArray<T>)
    ensures HasChildren(a) <==> GetCount(a) != 0
    ensures forall i :: 0 <= i < GetCount(a) <==> GetChildAt(a, i).Some?
  {
  }

  /** Where `splice(index, ...)` starts on an array of length `len`: a negative
      index counts back from the end, and the result is clamped to `0 .. len`. */
  function SpliceStart(len: nat, index: int): (k: nat)
    ensures k <= len
    ensures 0 <= index <= len ==> k == index
  {
    if index < 0 then (if len + index < 0 then 0 else len + index)
    else if index > len then len
    else index
  }

  /** `addChildAt(content, index)`: `content` lands at the splice start and
      every later child moves one place right. */
  function AddChildAt<T>(a: ContentArray<T>, content: T, index: int): (r: ContentArray<T>)
    ensures GetCount(r) == GetCount(a) + 1
    ensures var k := SpliceStart(|a.children|, index);
            && r.children[k] == content
            && r.children[..k] == a.children[..k]
            && r.children[k + 1..] == a.children[k..]
  {
    var k := SpliceStart(|a.children|, index);
    ContentArray(a.children[..k] + [content] + a.children[k..])
  }

  /** `addChild(content)`: insertion at the current count, i.e. appending. */
  function AddChild<T>(a: ContentArray<T>, content: T): (r: ContentArray<T>)
    ensures r.children == a.children + [content]
  {
    var r := AddChildAt(a, content, GetCount(a));
    assert r.children == r.children[..|a.children|] + [content] + r.children[|a.children| + 1..];
    r
  }

  /** `Array.prototype.indexOf`: the first index holding `x`, or -1. */
  function IndexOf<T(==)>(s: seq<T>, x: T): (k: int)
    ensures -1 <= k < |s|
    ensures k == -1 <==> x !in s
    ensures k >= 0 ==> s[k] == x && x !in s[..k]
  {
    if |s| == 0 then -1
    else if s[0] == x then 0
    else
      var k := IndexOf(s[1..], x);
      assert s[1..] == s[..|s|][1..];
      if k == -1 then -1
      else
        assert s[..k + 1] == [s[0]] + s[1..][..k];
        k + 1
  }

  /** `removeChildAt(index)`: removes and returns the child at `index` when that
      slot holds a truthy value; otherwise (out of range, or a falsy child)
      returns `None` and changes nothing. */
  function RemoveChildAt<T>(a: ContentArray<T>, index: int, truthy: T -> bool): (r: Removal<T>)
    ensures r.removed.Some? <==> 0 <= index < |a.children| && truthy(a.children[index])
    ensures r.removed.Some? ==>
              && r.removed.value == a.children[index]
              && r.after.children == a.children[..index] + a.children[index + 1..]
    ensures r.removed.None? ==> r.after == a
  {
    if 0 <= index < |a.children| && truthy(a.children[index]) then
      Removal(ContentArray(a.children[..index] + a.children[index + 1..]), Some(a.children[index]))
    else
      Removal(a, None)
  }

  /** Reference definition: the sequence without the first occurrence of `x`. */
  function RemoveFirst<T(==)>(s: seq<T>, x: T): seq<T> {
    if |s| == 0 then []
    else if s[0] == x then s[1..]
    else [s[0]] + RemoveFirst(s[1..], x)
  }

  lemma {:induction false} RemoveFirstIsSplice<T>(s: seq<T>, x: T)
    requires x in s
    ensures var k := IndexOf(s, x); RemoveFirst(s, x) == s[..k] + s[k + 1..]
  {
    if s[0] != x {
      RemoveFirstIsSplice(s[1..], x);
      var k := IndexOf(s[1..], x);
      assert s[..k + 1] == [s[0]] + s[1..][..k];
      assert s[k + 2..] == s[1..][k + 1..];
    }
  }

  /** `removeChild(content)`: finds the first occurrence and defers to
      `removeChildAt`. Only that first occurrence goes; an absent child, and
      also a present but falsy child, yields `None` and no change. */
  function RemoveChild<T(==)>(a: ContentArray<T>, content: T, truthy: T -> bool): (r: Removal<T>)
    ensures content !in a.children ==> r == Removal(a, None)
    ensures content in a.children && !truthy(content) ==> r == Removal(a, None)
    ensures content in a.children && truthy(content) ==>
              r == Removal(ContentArray(RemoveFirst(a.children, content)), Some(content))
  {
    var index := IndexOf(a.children, content);
    if index >= 0 then
      RemoveFirstIsSplice(a.children, content);
      RemoveChildAt(a, index, truthy)
    else Removal(a, None)
  }

  /** A successful removal takes exactly one copy of the child out. */
  lemma RemoveChildTakesOneCopy<T>(a: ContentArray<T>, content: T, truthy: T -> bool)
    requires RemoveChild(a, content, truthy).removed.Some?
    ensures var r := RemoveChild(a, content, truthy);
            multiset(r.after.children) + multiset{content} == multiset(a.children)
  {
    var k := IndexOf(a.children, content);
    RemoveFirstIsSplice(a.children, content);
    assert a.children == a.children[..k] + [content] + a.children[k + 1..];
  }

  /** Inserting a truthy child at an in-range index and removing at that index
      restores the array and hands the child back. */
  lemma AddThenRemoveAt<T>(a: ContentArray<T>, content: T, index: int, truthy: T -> bool)
    requires 0 <= index <= GetCount(a)
    requires truthy(content)
    ensures RemoveChildAt(AddChildAt(a, content, index), index, truthy) == Removal(a, Some(content))
  {
    var b := AddChildAt(a, content, index);
    assert b.children[..index] + b.children[index + 1..] == a.children;
  }

  /** Appending a falsy child and then asking to remove it leaves it in place. */
  lemma FalsyChildStays<T>(a: ContentArray<T>, content: T, truthy: T -> bool)
    requires !truthy(content)
    ensures var b := AddChild(a, content);
            RemoveChild(b, content, truthy) == Removal(b, None)
            && b.children[|b.children| - 1] == content
  {
  }
}
