/**
 * The part of POSIX `pathlib` the script uses: `Path(s)`, `.name`, `.with_name(...)` and
 * `str(...)`. A path is held in parsed form: its root and its non-empty components.
 */
module Paths {
  import opened Base
  import opened Seqs
  import Text

  datatype Path = Path(root: string, parts: seq<string>)

  /** A component `Path` keeps: non-empty, no separator, and not the `.` that parsing drops. */
  predicate IsPart(s: string)
  {
    |s| > 0 && '/' !in s && s != "."
  }

  /** The shape every parsed path has. */
  ghost predicate WellFormed(p: Path)
  {
    && (p.root == "" || p.root == "/" || p.root == "//")
    && forall k :: 0 <= k < |p.parts| ==> IsPart(p.parts[k])
  }

  /** POSIX root of a path string: exactly two leading slashes are kept as `//`, any other number collapses to `/`. */
  function RootOf(s: string): string
  {
    if |s| > 0 && s[0] == '/' then
      if |s| > 1 && s[1] == '/' && !(|s| > 2 && s[2] == '/') then "//" else "/"
    else ""
  }

  /** Components joined with `/`. */
  function Join(parts: seq<string>): string
    decreases |parts|
  {
    if |parts| == 0 then []
    else if |parts| == 1 then parts[0]
    else parts[0] + "/" + Join(parts[1..])
  }

  /** `s.split("/")`: the pieces between separators, empty ones included; joining them gives `s` back. */
  function SplitSlash(s: string): (pieces: seq<string>)
    ensures |pieces| > 0
    ensures forall k :: 0 <= k < |pieces| ==> '/' !in pieces[k]
    ensures Join(pieces) == s
    decreases |s|
  {
    if '/' in s then
      var i := Text.IndexOf(s, '/');
      var rest := SplitSlash(s[i + 1..]);
      assert ([s[..i]] + rest)[1..] == rest;
      assert s == s[..i] + "/" + s[i + 1..];
      [s[..i]] + rest
    else [s]
  }

  /** `Path(s)`: the root, then the components, with empty and `.` components dropped. */
  function Parse(s: string): (p: Path)
    ensures WellFormed(p)
  {
    var root := RootOf(s);
    Path(root, Keep(IsPart, SplitSlash(s[|root|..])))
  }

  /** `str(p)`: the root followed by the joined components, or `.` for the empty relative path. */
  function Str(p: Path): (s: string)
    ensures WellFormed(p) ==> |s| > 0
  {
    if p.root == "" && |p.parts| == 0 then "." else p.root + Join(p.parts)
  }

  /** `p.name`: the final component, or empty when there is none. */
  function Name(p: Path): (n: string)
  {
    if |p.parts| == 0 then "" else p.parts[|p.parts| - 1]
  }

  /** `p.parent`: the path without its final component. */
  function Parent(p: Path): (q: Path)
  {
    if |p.parts| == 0 then p else Path(p.root, p.parts[..|p.parts| - 1])
  }

  /** Why `with_name` raises `ValueError`. */
  datatype PathError = EmptyName(path: string) | InvalidName(name: string)

  /**
   * `p.with_name(n)`: the sibling of `p` called `n`. It raises when `p` has no name, or when
   * `n` is not a single component.
   */
  function WithName(p: Path, n: string): (r: Result<Path, PathError>)
    ensures r.Success? <==> Name(p) != "" && IsPart(n)
    ensures r.Success? ==> Name(r.value) == n && Parent(r.value) == Parent(p)
    ensures WellFormed(p) && r.Success? ==> WellFormed(r.value)
  {
    if Name(p) == "" then Failure(EmptyName(Str(p)))
    else if !IsPart(n) then Failure(InvalidName(n))
    else
      var init := p.parts[..|p.parts| - 1];
      assert (init + [n])[..|init|] == init;
      assert forall k :: 0 <= k < |init| ==> (init + [n])[k] == p.parts[k];
      Success(Path(p.root, init + [n]))
  }

  /** Splitting joined components gives the components back. */
  lemma {:induction false} SplitJoin(parts: seq<string>)
    requires |parts| > 0
    requires forall k :: 0 <= k < |parts| ==> '/' !in parts[k]
    ensures SplitSlash(Join(parts)) == parts
    decreases |parts|
  {
    if |parts| > 1 {
      var s := Join(parts);
      var head, tail := parts[0], Join(parts[1..]);
      assert s == head + "/" + tail;
      Text.IndexOfAfter(head, '/', tail);
      var i := Text.IndexOf(s, '/');
      assert s[..i] == head;
      assert s[i + 1..] == tail;
      SplitJoin(parts[1..]);
    }
  }

  /** The text of a well-formed path parses back to the same path. */
  lemma ParseStr(p: Path)
    requires WellFormed(p)
    ensures Parse(Str(p)) == p
  {
    var s := Str(p);
    if p.root == "" && |p.parts| == 0 {
      assert SplitSlash(".") == ["."];
      assert Keep(IsPart, ["."]) == Keep(IsPart, ["."][..0]);
    } else {
      var j := Join(p.parts);
      assert s == p.root + j;
      assert |j| > 0 ==> j[0] != '/' by {
        if |p.parts| > 0 {
          assert j[0] == p.parts[0][0] by {
            if |p.parts| > 1 {
              assert j == p.parts[0] + "/" + Join(p.parts[1..]);
            }
          }
        }
      }
      assert RootOf(s) == p.root;
      assert s[|p.root|..] == j;
      if |p.parts| == 0 {
        assert SplitSlash("") == [""];
        assert Keep(IsPart, [""]) == Keep(IsPart, [""][..0]);
      } else {
        SplitJoin(p.parts);
        KeepAll(IsPart, p.parts);
      }
    }
  }

  /** `p.with_name(n)` depends on `p` only through its parent: the old name is irrelevant. */
  lemma WithNameIgnoresOldName(p: Path, q: Path, n: string)
    requires Parent(p) == Parent(q)
    requires Name(p) != "" && Name(q) != ""
    ensures WithName(p, n) == WithName(q, n)
  {
  }
}
