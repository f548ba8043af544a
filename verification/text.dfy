/** How Python sees a text file: universal newlines, iteration by line, and `str.strip()`. */
module Text {
  import opened Seqs

  /** The characters for which Python's `str.isspace()` holds; `str.strip()` removes exactly these. */
  predicate IsSpace(c: char)
  {
    || c == ' '
    || ('\t' <= c <= '\r')
    || ('\U{1c}' <= c <= '\U{1f}')
    || c == '\U{85}' || c == '\U{a0}' || c == '\U{1680}'
    || ('\U{2000}' <= c <= '\U{200a}')
    || c == '\U{2028}' || c == '\U{2029}' || c == '\U{202f}' || c == '\U{205f}' || c == '\U{3000}'
  }

  /** `s` without its leading whitespace: the longest suffix that does not start with a space. */
  function LStrip(s: string): (t: string)
    ensures |t| <= |s| && t == s[|s| - |t|..]
    ensures forall k :: 0 <= k < |s| - |t| ==> IsSpace(s[k])
    ensures |t| > 0 ==> !IsSpace(t[0])
    decreases |s|
  {
    if |s| > 0 && IsSpace(s[0]) then LStrip(s[1..]) else s
  }

  /** `s` without its trailing whitespace: the longest prefix that does not end with a space. */
  function RStrip(s: string): (t: string)
    ensures |t| <= |s| && t == s[..|t|]
    ensures forall k :: |t| <= k < |s| ==> IsSpace(s[k])
    ensures |t| > 0 ==> !IsSpace(t[|t| - 1])
    decreases |s|
  {
    if |s| > 0 && IsSpace(s[|s| - 1]) then RStrip(s[..|s| - 1]) else s
  }

  /** How many whitespace characters `s` starts with. */
  function Lead(s: string): (i: nat)
    ensures i <= |s|
    ensures forall k :: 0 <= k < i ==> IsSpace(s[k])
    ensures i < |s| ==> !IsSpace(s[i])
  {
    |s| - |LStrip(s)|
  }

  /**
   * Python's `str.strip()` with no argument: the slice of `s` after its leading whitespace,
   * with only whitespace after it, neither starting nor ending with whitespace.
   */
  function Strip(s: string): (t: string)
    ensures Lead(s) + |t| <= |s| && t == s[Lead(s)..Lead(s) + |t|]
    ensures forall k :: Lead(s) + |t| <= k < |s| ==> IsSpace(s[k])
    ensures |t| > 0 ==> !IsSpace(t[|t| - 1])
  {
    var l := LStrip(s);
    var t := RStrip(l);
    SuffixPrefix(s, |s| - |l|, |t|);
    t
  }

  /** The first `n` characters of the suffix of `s` from `i` are the slice `s[i..i + n]`, and the rest of that suffix is the rest of `s`. */
  lemma SuffixPrefix(s: string, i: nat, n: nat)
    requires i + n <= |s|
    ensures s[i..][..n] == s[i..i + n]
    ensures forall k :: i + n <= k < |s| ==> s[i..][k - i] == s[k]
  {
  }

  /** A line the reader skips: `line.strip()` is the empty, falsy string. */
  predicate IsBlank(line: string)
  {
    |Strip(line)| == 0
  }

  /** A string of whitespace only has nothing left after `lstrip()`. */
  lemma LStripAllSpace(s: string)
    requires forall k :: 0 <= k < |s| ==> IsSpace(s[k])
    ensures LStrip(s) == []
    decreases |s|
  {
    if |s| > 0 {
      LStripAllSpace(s[1..]);
    }
  }

  /** A line is skipped exactly when every character of it is whitespace. */
  lemma BlankIffAllSpace(line: string)
    ensures IsBlank(line) <==> forall k :: 0 <= k < |line| ==> IsSpace(line[k])
  {
    var l := LStrip(line);
    if IsBlank(line) {
      assert |l| == 0;
    } else if forall k :: 0 <= k < |line| ==> IsSpace(line[k]) {
      LStripAllSpace(line);
    }
  }

  /** Python's universal-newline translation when reading text: `\r\n` and a lone `\r` both become `\n`. */
  function Universal(s: string): (t: string)
    ensures '\r' !in t
    ensures '\r' !in s ==> t == s
    decreases |s|
  {
    if |s| == 0 then []
    else if s[0] == '\r' then "\n" + Universal(if |s| > 1 && s[1] == '\n' then s[2..] else s[1..])
    else
      assert '\r' !in s ==> '\r' !in s[1..];
      [s[0]] + Universal(s[1..])
  }

  /** Text that does not end inside a `\r\n` pair translates piece by piece. */
  lemma {:induction false} UniversalAppend(a: string, b: string)
    requires |a| == 0 || a[|a| - 1] != '\r'
    ensures Universal(a + b) == Universal(a) + Universal(b)
    decreases |a|
  {
    if |a| > 0 {
      var n := if a[0] == '\r' && a[1] == '\n' then 2 else 1;
      var head := if a[0] == '\r' then "\n" else [a[0]];
      assert Universal(a + b) == head + Universal(a[n..] + b) by {
        assert (a + b)[0] == a[0];
        assert a[0] == '\r' ==> |a| > 1 && (a + b)[1] == a[1];
        assert (a + b)[n..] == a[n..] + b;
      }
      assert Universal(a) == head + Universal(a[n..]);
      UniversalAppend(a[n..], b);
      AppendAssoc(head, Universal(a[n..]), Universal(b));
    } else {
      assert a + b == b;
    }
  }

  /** A `\r\n` pair after text without carriage returns is read as a single `\n`. */
  lemma UniversalCrLf(a: string, b: string)
    requires '\r' !in a
    ensures Universal(a + "\r\n" + b) == a + "\n" + Universal(b)
  {
    var x := "\r\n" + b;
    assert x[0] == '\r' && x[1] == '\n' && x[2..] == b;
    assert Universal(x) == "\n" + Universal(b);
    AppendAssoc(a, "\r\n", b);
    UniversalAppend(a, x);
    AppendAssoc(a, "\n", Universal(b));
  }

  /** A lone `\r`, not followed by `\n`, after text without carriage returns is read as `\n`. */
  lemma UniversalLoneCr(a: string, b: string)
    requires '\r' !in a
    requires |b| == 0 || b[0] != '\n'
    ensures Universal(a + "\r" + b) == a + "\n" + Universal(b)
  {
    var x := "\r" + b;
    assert x[0] == '\r' && x[1..] == b;
    assert Universal(x) == "\n" + Universal(b);
    AppendAssoc(a, "\r", b);
    UniversalAppend(a, x);
    AppendAssoc(a, "\n", Universal(b));
  }

  /** Translation keeps a final `\n`. */
  lemma {:induction false} UniversalKeepsNewlineEnd(a: string)
    requires |a| > 0 && a[|a| - 1] == '\n'
    ensures |Universal(a)| > 0 && Universal(a)[|Universal(a)| - 1] == '\n'
    decreases |a|
  {
    if a[0] == '\r' {
      if |a| > 2 && a[1] == '\n' {
        UniversalKeepsNewlineEnd(a[2..]);
      } else if |a| > 1 && a[1] != '\n' {
        UniversalKeepsNewlineEnd(a[1..]);
      }
    } else if |a| > 1 {
      UniversalKeepsNewlineEnd(a[1..]);
    }
  }

  /** The position of the first occurrence of `c` in `s`. */
  function IndexOf(s: string, c: char): (i: nat)
    requires c in s
    ensures i < |s| && s[i] == c && c !in s[..i]
    decreases |s|
  {
    if s[0] == c then 0
    else
      var i := 1 + IndexOf(s[1..], c);
      assert s[..i] == [s[0]] + s[1..][..i - 1];
      i
  }

  /** In text whose first `c` follows `a`, that `c` is found right after `a`. */
  lemma IndexOfAfter(a: string, c: char, b: string)
    requires c !in a
    ensures IndexOf(a + [c] + b, c) == |a|
  {
    var s := a + [c] + b;
    assert s[|a|] == c;
    assert s[..|a|] == a;
  }

  /** The strings of `ls` joined end to end. */
  function Concat(ls: seq<string>): string
    decreases |ls|
  {
    if |ls| == 0 then [] else ls[0] + Concat(ls[1..])
  }

  /** Iterating over a text file: every line keeps its `\n`, and a last line without one is still a line. */
  function Lines(s: string): (ls: seq<string>)
    ensures Concat(ls) == s
    ensures forall k :: 0 <= k < |ls| ==> |ls[k]| > 0 && '\n' !in ls[k][..|ls[k]| - 1]
    ensures forall k :: 0 <= k < |ls| - 1 ==> ls[k][|ls[k]| - 1] == '\n'
    decreases |s|
  {
    if |s| == 0 then []
    else if '\n' in s then
      var i := IndexOf(s, '\n');
      var t := s[..i + 1];
      var rest := Lines(s[i + 1..]);
      assert t[..i] == s[..i] && t + s[i + 1..] == s;
      ConsLine(t, rest);
      [t] + rest
    else
      OneLine(s);
      [s]
  }

  /** A line ended by its only `\n`, put in front of well-shaped lines, gives well-shaped lines. */
  lemma ConsLine(t: string, rest: seq<string>)
    requires |t| > 0 && t[|t| - 1] == '\n' && '\n' !in t[..|t| - 1]
    requires forall k :: 0 <= k < |rest| ==> |rest[k]| > 0 && '\n' !in rest[k][..|rest[k]| - 1]
    requires forall k :: 0 <= k < |rest| - 1 ==> rest[k][|rest[k]| - 1] == '\n'
    ensures Concat([t] + rest) == t + Concat(rest)
    ensures var ls := [t] + rest;
            && (forall k :: 0 <= k < |ls| ==> |ls[k]| > 0 && '\n' !in ls[k][..|ls[k]| - 1])
            && (forall k :: 0 <= k < |ls| - 1 ==> ls[k][|ls[k]| - 1] == '\n')
  {
    var ls := [t] + rest;
    assert ls[1..] == rest;
    assert forall k :: 1 <= k < |ls| ==> ls[k] == rest[k - 1];
  }

  /** Text without a `\n` is a single, well-shaped line. */
  lemma OneLine(s: string)
    requires |s| > 0 && '\n' !in s
    ensures Concat([s]) == s
    ensures '\n' !in s[..|s| - 1]
  {
    assert [s][1..] == [];
    assert forall k :: 0 <= k < |s| - 1 ==> s[..|s| - 1][k] == s[k];
  }

  /** A line `t` followed by its `\n` comes off the front of the text as one line. */
  lemma LinesOfLine(t: string, rest: string)
    requires '\n' !in t
    ensures Lines(t + "\n" + rest) == [t + "\n"] + Lines(rest)
  {
    var s := t + "\n" + rest;
    assert s[|t|] == '\n';
    var i := IndexOf(s, '\n');
    assert forall k :: 0 <= k < |t| ==> s[k] == t[k];
    assert i <= |t| by {
      assert forall k :: 0 <= k < i ==> s[..i][k] == s[k];
    }
    assert s[..i + 1] == t + "\n";
    assert s[i + 1..] == rest;
  }

  /** Text holding a `\n` is its first line, that `\n`, and the rest. */
  lemma FirstLine(x: string) returns (t: string, rest: string)
    requires '\n' in x
    ensures '\n' !in t && x == t + "\n" + rest
  {
    var i := IndexOf(x, '\n');
    t, rest := x[..i], x[i + 1..];
    assert x == x[..i] + [x[i]] + x[i + 1..];
  }

  /** Text cut at a line boundary splits into the lines of each piece. */
  lemma {:induction false} LinesAppend(x: string, y: string)
    requires |x| == 0 || x[|x| - 1] == '\n'
    ensures Lines(x + y) == Lines(x) + Lines(y)
    decreases |x|
  {
    if |x| == 0 {
      assert x + y == y;
    } else {
      assert x[|x| - 1] in x;
      var t, x' := FirstLine(x);
      assert x + y == t + "\n" + (x' + y);
      assert |x'| == 0 || x'[|x'| - 1] == '\n';
      LinesOfLine(t, x' + y);
      LinesOfLine(t, x');
      LinesAppend(x', y);
      var a, l1, l2 := [t + "\n"], Lines(x'), Lines(y);
      calc {
        Lines(x + y);
        a + Lines(x' + y);
        a + (l1 + l2);
        { assert a + (l1 + l2) == (a + l1) + l2 by { AppendAssoc(a, l1, l2); } }
        (a + l1) + l2;
        Lines(x) + l2;
      }
    }
  }
}
