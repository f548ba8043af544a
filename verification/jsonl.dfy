/**
 * Reading and writing line-delimited JSON (scripts/prepare_dataset.py, `_load_jsonl` and
 * `_write_jsonl`). Records are an opaque type `R`; `json.loads` is the parameter `parse`, which
 * either yields a record or raises an exception `E`, and `json.dumps` is the parameter `encode`.
 */
module Jsonl {
  import opened Base
  import opened Seqs
  import opened Text

  /** The reader's line test `if line.strip():`. */
  predicate HasContent(line: string)
  {
    !IsBlank(line)
  }

  /** The lines of a file the reader hands to the parser, in file order. */
  function ContentLines(text: string): seq<string>
  {
    Keep(HasContent, Lines(Universal(text)))
  }

  /**
   * `_load_jsonl`: one parse outcome per non-blank line, in file order. The generator is lazy,
   * so an outcome only takes effect when a consumer reaches it; a `Failure` is the exception
   * `json.loads` raises on that line.
   */
  function Load<R, E>(text: string, parse: string -> Result<R, E>): seq<Result<R, E>>
  {
    ParseEach(parse, ContentLines(text))
  }

  /** The `k`-th outcome the reader yields is `json.loads` of the `k`-th non-blank line. */
  lemma LoadAt<R, E>(text: string, parse: string -> Result<R, E>, k: nat)
    requires k < |ContentLines(text)|
    ensures Load(text, parse)[k] == parse(ContentLines(text)[k])
    ensures HasContent(ContentLines(text)[k])
  {
    ParseEachAt(parse, ContentLines(text), k);
  }

  /** `json.loads` applied to each line in turn. */
  function ParseEach<R, E>(parse: string -> Result<R, E>, lines: seq<string>): (items: seq<Result<R, E>>)
    ensures |items| == |lines|
    decreases |lines|
  {
    if |lines| == 0 then [] else [parse(lines[0])] + ParseEach(parse, lines[1..])
  }

  lemma {:induction false} ParseEachAt<R, E>(parse: string -> Result<R, E>, lines: seq<string>, k: nat)
    requires k < |lines|
    ensures ParseEach(parse, lines)[k] == parse(lines[k])
    decreases |lines|
  {
    if k > 0 {
      ParseEachAt(parse, lines[1..], k - 1);
    }
  }

  lemma {:induction false} ParseEachAppend<R, E>(parse: string -> Result<R, E>, xs: seq<string>, ys: seq<string>)
    ensures ParseEach(parse, xs + ys) == ParseEach(parse, xs) + ParseEach(parse, ys)
    decreases |xs|
  {
    if |xs| == 0 {
      assert xs + ys == ys;
    } else {
      assert (xs + ys)[1..] == xs[1..] + ys;
      ParseEachAppend(parse, xs[1..], ys);
    }
  }

  /** The position of the first outcome that raises, or `|items|` when none does. */
  function FirstFailure<R, E>(items: seq<Result<R, E>>): (f: nat)
    ensures f <= |items|
    ensures forall k :: 0 <= k < f ==> items[k].Success?
    ensures f < |items| ==> items[f].Failure?
    decreases |items|
  {
    if |items| == 0 || items[0].Failure? then 0 else 1 + FirstFailure(items[1..])
  }

  /** The records carried by outcomes none of which raised. */
  function Values<R, E>(items: seq<Result<R, E>>): seq<R>
    requires forall k :: 0 <= k < |items| ==> items[k].Success?
  {
    seq(|items|, k requires 0 <= k < |items| => items[k].value)
  }

  /** Draining the generator eagerly, as `list(_load_jsonl(p))` would: every record, or the first exception. */
  function ReadAll<R, E>(text: string, parse: string -> Result<R, E>): Result<seq<R>, E>
  {
    var items := Load(text, parse);
    var f := FirstFailure(items);
    if f == |items| then Success(Values(items)) else Failure(items[f].error)
  }

  /** `_write_jsonl`: each record serialised on a line of its own, each line ended by `\n`. */
  function Write<R>(encode: R -> string, rs: seq<R>): string
    decreases |rs|
  {
    if |rs| == 0 then [] else encode(rs[0]) + "\n" + Write(encode, rs[1..])
  }

  /**
   * What the serialiser must do for a record to survive a write and a read: its text is one
   * line that is not blank, and parsing that line back gives the record.
   */
  ghost predicate Encodes<R, E>(encode: R -> string, parse: string -> Result<R, E>, r: R)
  {
    var t := encode(r);
    && '\n' !in t
    && '\r' !in t
    && !IsBlank(t)
    && parse(t + "\n") == Success(r)
  }

  /** A serialiser that works for every record works for the records of any sequence. */
  lemma EncodesEach<R, E>(encode: R -> string, parse: string -> Result<R, E>, rs: seq<R>)
    requires forall r :: Encodes(encode, parse, r)
    ensures forall k :: 0 <= k < |rs| ==> Encodes(encode, parse, rs[k])
  {
  }

  /** Written text holds no carriage return, so reading it back translates nothing. */
  lemma {:induction false} WriteHasNoCarriageReturn<R>(encode: R -> string, rs: seq<R>)
    requires forall k :: 0 <= k < |rs| ==> '\r' !in encode(rs[k])
    ensures '\r' !in Write(encode, rs)
    decreases |rs|
  {
    if |rs| > 0 {
      WriteHasNoCarriageReturn(encode, rs[1..]);
      assert forall k :: 0 <= k < |rs[1..]| ==> rs[1..][k] == rs[k + 1];
    }
  }

  /** Written text splits back into exactly the lines that were written, one per record. */
  lemma {:induction false} LinesOfWrite<R>(encode: R -> string, rs: seq<R>)
    requires forall k :: 0 <= k < |rs| ==> '\n' !in encode(rs[k])
    ensures |Lines(Write(encode, rs))| == |rs|
    ensures forall k :: 0 <= k < |rs| ==> Lines(Write(encode, rs))[k] == encode(rs[k]) + "\n"
    decreases |rs|
  {
    if |rs| > 0 {
      assert forall k :: 0 <= k < |rs[1..]| ==> rs[1..][k] == rs[k + 1];
      LinesOfWrite(encode, rs[1..]);
      LinesOfLine(encode(rs[0]), Write(encode, rs[1..]));
    } else {
      assert Write(encode, rs) == [];
    }
  }

  /** A line ended by `\n` is blank exactly when the text before the `\n` is. */
  lemma BlankWithNewline(t: string)
    ensures IsBlank(t + "\n") <==> IsBlank(t)
  {
    BlankIffAllSpace(t);
    BlankIffAllSpace(t + "\n");
    assert (t + "\n")[|t|] == '\n';
    assert forall k :: 0 <= k < |t| ==> (t + "\n")[k] == t[k];
  }

  /** Reading back what `_write_jsonl` wrote yields one successful parse per record, in order. */
  lemma LoadOfWrite<R, E>(encode: R -> string, parse: string -> Result<R, E>, rs: seq<R>)
    requires forall k :: 0 <= k < |rs| ==> Encodes(encode, parse, rs[k])
    ensures |Load(Write(encode, rs), parse)| == |rs|
    ensures forall k :: 0 <= k < |rs| ==> Load(Write(encode, rs), parse)[k] == Success(rs[k])
  {
    var text := Write(encode, rs);
    WriteHasNoCarriageReturn(encode, rs);
    LinesOfWrite(encode, rs);
    var lines := Lines(text);
    forall k | 0 <= k < |lines|
      ensures HasContent(lines[k])
    {
      BlankWithNewline(encode(rs[k]));
    }
    KeepAll(HasContent, lines);
    forall k | 0 <= k < |rs|
      ensures Load(text, parse)[k] == Success(rs[k])
    {
      ParseEachAt(parse, lines, k);
    }
  }

  /** Round trip: reading back a written file gives the records that were written. */
  lemma WriteThenRead<R, E>(encode: R -> string, parse: string -> Result<R, E>, rs: seq<R>)
    requires forall k :: 0 <= k < |rs| ==> Encodes(encode, parse, rs[k])
    ensures ReadAll(Write(encode, rs), parse) == Success(rs)
  {
    var items := Load(Write(encode, rs), parse);
    LoadOfWrite(encode, parse, rs);
    AllSucceed(items, rs);
  }

  /** Outcomes that all succeed, carrying `rs`, contain no failure and hold exactly `rs`. */
  lemma AllSucceed<R, E>(items: seq<Result<R, E>>, rs: seq<R>)
    requires |items| == |rs|
    requires forall k :: 0 <= k < |rs| ==> items[k] == Success(rs[k])
    ensures FirstFailure(items) == |items|
    ensures Values(items) == rs
  {
    assert forall k :: 0 <= k < |items| ==> items[k].Success?;
  }

  /** Splitting a file at a line boundary splits the lines handed to the parser the same way. */
  lemma ContentLinesAppend(a: string, b: string)
    requires |a| == 0 || a[|a| - 1] == '\n'
    ensures ContentLines(a + b) == ContentLines(a) + ContentLines(b)
  {
    UniversalAppend(a, b);
    if |a| > 0 {
      UniversalKeepsNewlineEnd(a);
    }
    LinesAppend(Universal(a), Universal(b));
    KeepAppend(HasContent, Lines(Universal(a)), Lines(Universal(b)));
  }

  /** Splitting a file at a line boundary splits its parse outcomes the same way. */
  lemma LoadAppend<R, E>(a: string, b: string, parse: string -> Result<R, E>)
    requires |a| == 0 || a[|a| - 1] == '\n'
    ensures Load(a + b, parse) == Load(a, parse) + Load(b, parse)
  {
    ContentLinesAppend(a, b);
    ParseEachAppend(parse, ContentLines(a), ContentLines(b));
  }

  /** The lines a single physical line hands to the parser: none when it is blank, else itself. */
  lemma ContentLinesOfOneLine(w: string)
    requires '\n' !in w && '\r' !in w
    ensures ContentLines(w + "\n") == if IsBlank(w) then [] else [w + "\n"]
  {
    var line := w + "\n";
    assert '\r' !in line;
    assert Universal(line) == line;
    LinesOfLine(w, "");
    assert w + "\n" + "" == line;
    assert Lines(line) == [line];
    BlankWithNewline(w);
    assert Keep(HasContent, [line]) == Keep(HasContent, [line][..0]) + (if HasContent(line) then [line] else []);
  }

  /**
   * One physical line: a blank line yields no parse outcome at all, any other line yields
   * exactly one, the parse of that line.
   */
  lemma LoadOneLine<R, E>(w: string, parse: string -> Result<R, E>)
    requires '\n' !in w && '\r' !in w
    ensures Load(w + "\n", parse) == if IsBlank(w) then [] else [parse(w + "\n")]
  {
    ContentLinesOfOneLine(w);
  }

  /**
   * A blank line inserted between two lines changes nothing the reader yields, so it does not
   * shift the position of any later record.
   */
  lemma BlankLineIgnored<R, E>(a: string, w: string, b: string, parse: string -> Result<R, E>)
    requires |a| == 0 || a[|a| - 1] == '\n'
    requires '\n' !in w && '\r' !in w && IsBlank(w)
    ensures Load(a + w + "\n" + b, parse) == Load(a + b, parse)
  {
    var line := w + "\n";
    assert a + w + "\n" + b == a + (line + b) by {
      AppendAssoc(a, w, "\n");
      AppendAssoc(a + w, "\n", b);
      AppendAssoc(a, line, b);
    }
    LoadAppend(line, b, parse);
    LoadOneLine(w, parse);
    assert Load(line + b, parse) == Load(b, parse);
    LoadAppend(a, line + b, parse);
    LoadAppend(a, b, parse);
  }

  /**
   * A non-blank line yields the parse outcome at the position equal to the number of outcomes
   * the text before it yields: its 0-based rank among non-blank lines.
   */
  lemma ContentLinePosition<R, E>(a: string, w: string, b: string, parse: string -> Result<R, E>)
    requires |a| == 0 || a[|a| - 1] == '\n'
    requires '\n' !in w && '\r' !in w && !IsBlank(w)
    ensures |Load(a, parse)| < |Load(a + w + "\n" + b, parse)|
    ensures Load(a + w + "\n" + b, parse)[|Load(a, parse)|] == parse(w + "\n")
  {
    var line := w + "\n";
    assert a + w + "\n" + b == a + (line + b) by {
      AppendAssoc(a, w, "\n");
      AppendAssoc(a + w, "\n", b);
      AppendAssoc(a, line, b);
    }
    LoadAppend(a, line + b, parse);
    LoadAppend(line, b, parse);
    LoadOneLine(w, parse);
  }
}
