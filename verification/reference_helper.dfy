/** `tsumekusaJsdoc/references/ReferenceHelper.js`: how a symbol's reference ID,
    help-file name and directory are derived from its long name. */
module ReferenceHelpers {
  import opened Wrappers
  import opened JsStrings
  import opened Doclets

  /** What every file name ends with. */
  const FileExtension: string := ".tsumekusa"

  /** `getReferenceId(symbol, opt_modifier)`: the long name, followed by `-`
      and the modifier when the modifier is truthy. */
  function GetReferenceId(symbol: Doclet, optModifier: Option<string>): (r: string)
    ensures |r| >= |symbol.longname| && r[..|symbol.longname|] == symbol.longname
    ensures Truthy(optModifier) ==> r[|symbol.longname|..] == "-" + optModifier.value
    ensures !Truthy(optModifier) <==> r == symbol.longname
  {
    match optModifier
    case Some(m) => if m != "" then symbol.longname + "-" + m else symbol.longname
    case None => symbol.longname
  }

  /** When the long name has no `-`, the ID splits back at its first `-` into
      the long name and the modifier. */
  lemma ReferenceIdSplits(symbol: Doclet, modifier: string)
    requires '-' !in symbol.longname && modifier != ""
    ensures var r := GetReferenceId(symbol, Some(modifier));
            var k := FirstIndexOf(r, '-');
            k < |r| && r[..k] == symbol.longname && r[k + 1..] == modifier
  {
    var r := GetReferenceId(symbol, Some(modifier));
    FirstIndexOfAfter(symbol.longname, '-', modifier);
    assert r == symbol.longname + ['-'] + modifier;
  }

  /** Two different truthy modifiers give two different IDs for one symbol. */
  lemma ReferenceIdsDistinct(symbol: Doclet, m1: string, m2: string)
    requires m1 != "" && m2 != "" && m1 != m2
    ensures GetReferenceId(symbol, Some(m1)) != GetReferenceId(symbol, Some(m2))
  {
    var l := |symbol.longname| + 1;
    assert GetReferenceId(symbol, Some(m1))[l..] == m1;
    assert GetReferenceId(symbol, Some(m2))[l..] == m2;
  }

  /** `replace(/\./g, '/')`. */
  function ReplaceDots(s: string): (r: string)
    ensures |r| == |s|
    ensures forall i :: 0 <= i < |s| ==> r[i] == if s[i] == '.' then '/' else s[i]
    ensures '.' !in r
  {
    seq(|s|, i requires 0 <= i < |s| => if s[i] == '.' then '/' else s[i])
  }

  /** The reference inverse of `ReplaceDots` on names without `/`. */
  function RestoreDots(s: string): (r: string)
    ensures |r| == |s|
  {
    seq(|s|, i requires 0 <= i < |s| => if s[i] == '/' then '.' else s[i])
  }

  /** `getFileName(symbol)`: the long name with every `.` turned into `/`, and
      the `.tsumekusa` extension (although the doc comment says the name has no
      extension). */
  function GetFileName(symbol: Doclet): (r: string)
    ensures |r| == |symbol.longname| + |FileExtension|
    ensures r[..|symbol.longname|] == ReplaceDots(symbol.longname)
    ensures r[|symbol.longname|..] == FileExtension
    ensures '.' !in r[..|symbol.longname|]
  {
    ReplaceDots(symbol.longname) + FileExtension
  }

  /** The file name gives the long name back, as long as the long name had no
      `/` of its own. */
  lemma FileNameRoundTrip(symbol: Doclet)
    requires '/' !in symbol.longname
    ensures var f := GetFileName(symbol);
            RestoreDots(f[..|f| - |FileExtension|]) == symbol.longname
  {
    var f := GetFileName(symbol);
    assert f[..|f| - |FileExtension|] == ReplaceDots(symbol.longname);
  }

  /** A long name with a `/` of its own shares its file with the dotted one. */
  lemma FileNamesCollide(s1: Doclet, s2: Doclet)
    requires s1.longname == "a.b" && s2.longname == "a/b"
    ensures GetFileName(s1) == GetFileName(s2)
  {
    assert ReplaceDots("a.b") == "a/b";
    assert ReplaceDots("a/b") == "a/b";
  }

  /** Where Node's POSIX `path.dirname` ends the directory: scanning from index
      `i` down to 1, the first `/` met after a non-`/` character, or -1. */
  function DirnameEnd(p: string, i: int, matchedSlash: bool): (end: int)
    requires i < |p|
    decreases i
    ensures end == -1 || (1 <= end <= i && p[end] == '/')
    ensures end == -1 ==> forall k :: 1 <= k <= i && p[k] == '/' ==> matchedSlash && AllSlash(p[k..i + 1])
  {
    if i < 1 then -1
    else if p[i] == '/' then
      if !matchedSlash then i
      else
        var end := DirnameEnd(p, i - 1, true);
        assert end == -1 ==> forall k :: 1 <= k <= i && p[k] == '/' ==> AllSlash(p[k..i + 1]) by {
          if end == -1 {
            forall k | 1 <= k <= i && p[k] == '/'
              ensures AllSlash(p[k..i + 1])
            {
              if k < i {
                assert p[k..i + 1] == p[k..i] + [p[i]];
              }
            }
          }
        }
        end
    else DirnameEnd(p, i - 1, false)
  }

  predicate AllSlash(s: string) {
    forall k :: 0 <= k < |s| ==> s[k] == '/'
  }

  /** Node's POSIX `path.dirname(p)`. */
  function Dirname(p: string): (r: string)
    ensures p == "" ==> r == "."
    ensures p != "" && p[0] != '/' && '/' !in p ==> r == "."
  {
    if |p| == 0 then "."
    else
      var hasRoot := p[0] == '/';
      var end := DirnameEnd(p, |p| - 1, true);
      if end == -1 then (if hasRoot then "/" else ".")
      else if hasRoot && end == 1 then "//"
      else p[..end]
  }

  /** The directory of `dir/base` is `dir`, for a base name without `/` and a
      directory that is neither empty nor the root alone. */
  lemma DirnameOfJoin(dir: string, base: string)
    requires dir != "" && dir != "/"
    requires base != "" && '/' !in base
    ensures Dirname(dir + "/" + base) == dir
  {
    var p := dir + "/" + base;
    DirnameEndAfterSlash(p, |dir|, |p| - 1);
    assert p[..|dir|] == dir;
  }

  /** Scanning back over characters that are not `/` stops at the `/` at
      `at`. */
  lemma {:induction false} DirnameEndAfterSlash(p: string, at: nat, i: nat)
    requires 1 <= at < i < |p| && p[at] == '/'
    requires forall k :: at < k <= i ==> p[k] != '/'
    ensures DirnameEnd(p, i, true) == at
    ensures DirnameEnd(p, i, false) == at
    decreases i
  {
    if i - 1 > at {
      DirnameEndAfterSlash(p, at, i - 1);
    }
  }

  /** `getDirectoryPath(symbol)`: the directory of the file name. */
  function GetDirectoryPath(symbol: Doclet): (r: string)
    ensures '.' !in symbol.longname && '/' !in symbol.longname ==> r == "."
  {
    var f := GetFileName(symbol);
    assert '.' !in symbol.longname && '/' !in symbol.longname ==> '/' !in f by {
      if '.' !in symbol.longname && '/' !in symbol.longname {
        forall k | 0 <= k < |f|
          ensures f[k] != '/'
        {
          if k < |symbol.longname| {
            assert f[k] == ReplaceDots(symbol.longname)[k];
          } else {
            assert f[k] == FileExtension[k - |symbol.longname|];
          }
        }
      }
    }
    Dirname(f)
  }

  /** For `parent.name`, the directory is the parent's path with `/` for `.`,
      and the directory, a `/` and the base name make up the file name. */
  lemma DirectoryOfMember(symbol: Doclet, parent: string, name: string)
    requires symbol.longname == parent + "." + name
    requires parent != "" && parent != "." && parent != "/"
    requires '.' !in name && '/' !in name
    ensures GetDirectoryPath(symbol) == ReplaceDots(parent)
    ensures GetDirectoryPath(symbol) + "/" + name + FileExtension == GetFileName(symbol)
  {
    var f := GetFileName(symbol);
    var base := name + FileExtension;
    assert ReplaceDots(symbol.longname) == ReplaceDots(parent) + "/" + name;
    assert f == ReplaceDots(parent) + "/" + base;
    assert '/' !in base by {
      forall k | 0 <= k < |base|
        ensures base[k] != '/'
      {
        if k < |name| {
          assert base[k] == name[k];
        } else {
          assert base[k] == FileExtension[k - |name|];
        }
      }
    }
    assert ReplaceDots(parent) != "/" by {
      if |parent| == 1 {
        assert ReplaceDots(parent)[0] != '/';
      }
    }
    DirnameOfJoin(ReplaceDots(parent), base);
  }
}
