/**
 * `_validate_and_limit` (scripts/prepare_dataset.py) driven by the lazy reader: the loop pulls
 * parse outcomes one at a time, so it raises on a malformed line only if it reaches that line
 * before the limit makes it break.
 */
module Split {
  import opened Base
  import opened Jsonl
  import opened Selection
  import opened Seqs

  /** The records the loop sees before the first line that fails to parse. */
  function Parsed<R, E>(items: seq<Result<R, E>>): seq<R>
  {
    Values(items[..FirstFailure(items)])
  }

  /**
   * What `_validate_and_limit` returns or raises: the first accepted records up to the limit,
   * unless a line that fails to parse is reached before the limit is.
   */
  function SplitResult<R, E>(items: seq<Result<R, E>>, errs: R -> seq<string>, maxN: Option<int>)
    : Result<seq<R>, E>
  {
    var f := FirstFailure(items);
    var rs := Parsed(items);
    if f == |items| || Reached(errs, rs, maxN) then Success(FilterCap(errs, rs, maxN))
    else Failure(items[f].error)
  }

  /** The warnings `_validate_and_limit` prints: one per rejected record among those it consumes. */
  function SplitWarnings<R, E>(file: string, items: seq<Result<R, E>>, errs: R -> seq<string>, maxN: Option<int>)
    : seq<Warning>
  {
    var rs := Parsed(items);
    Warnings(file, errs, rs[..Consumed(errs, rs, maxN)])
  }

  /** The loop meets a line that fails to parse before the limit: the error propagates. */
  lemma StopsAtFailure<R, E>(file: string, items: seq<Result<R, E>>, errs: R -> seq<string>, maxN: Option<int>, i: nat)
    requires i < |items| && i <= FirstFailure(items) && items[i].Failure?
    requires !Reached(errs, Parsed(items)[..i], maxN)
    ensures SplitResult(items, errs, maxN) == Failure(items[i].error)
    ensures SplitWarnings(file, items, errs, maxN) == Warnings(file, errs, Parsed(items)[..i])
  {
    var rs := Parsed(items);
    assert rs[..i] == rs;
    NotReachedTakesAll(errs, rs, maxN);
  }

  /** The loop breaks right after record `i`: it returns the accepted records and warnings so far. */
  lemma StopsAtLimit<R, E>(file: string, items: seq<Result<R, E>>, errs: R -> seq<string>, maxN: Option<int>, i: nat)
    requires i < FirstFailure(items)
    requires !Reached(errs, Parsed(items)[..i], maxN) && Reached(errs, Parsed(items)[..i + 1], maxN)
    ensures SplitResult(items, errs, maxN) == Success(Valid(errs, Parsed(items)[..i + 1]))
    ensures SplitWarnings(file, items, errs, maxN) == Warnings(file, errs, Parsed(items)[..i + 1])
  {
    var rs := Parsed(items);
    var k := Limit(maxN).value;
    var v, vi := Valid(errs, rs), Valid(errs, rs[..i + 1]);
    ValidStep(errs, rs, i);
    ValidPrefix(errs, rs, i + 1);
    assert |vi| == k;
    assert Reached(errs, rs, maxN);
    assert FilterCap(errs, rs, maxN) == v[..k] == vi;
    StopAtExact(errs, rs, k, i + 1);
    assert Consumed(errs, rs, maxN) == i + 1;
  }

  /** The loop runs off the end of a file without a malformed line and without reaching the limit. */
  lemma RunsToEnd<R, E>(file: string, items: seq<Result<R, E>>, errs: R -> seq<string>, maxN: Option<int>)
    requires FirstFailure(items) == |items|
    requires !Reached(errs, Parsed(items), maxN)
    ensures SplitResult(items, errs, maxN) == Success(Valid(errs, Parsed(items)))
    ensures SplitWarnings(file, items, errs, maxN) == Warnings(file, errs, Parsed(items))
  {
    var rs := Parsed(items);
    NotReachedTakesAll(errs, rs, maxN);
    assert rs[..|rs|] == rs;
  }

  /**
   * The `for`/`break` loop of `_validate_and_limit`, with the cap checked exactly as the source
   * writes it: `if max_n and len(filtered) >= max_n: break`.
   */
  method ValidateAndLimit<R, E>(file: string, items: seq<Result<R, E>>, errs: R -> seq<string>, maxN: Option<int>)
    returns (result: Result<seq<R>, E>, warnings: seq<Warning>)
    ensures result == SplitResult(items, errs, maxN)
    ensures warnings == SplitWarnings(file, items, errs, maxN)
  {
    ghost var rs := Parsed(items);
    var filtered: seq<R> := [];
    warnings := [];
    var i := 0;
    while i < |items|
      invariant i <= FirstFailure(items)
      invariant filtered == Valid(errs, rs[..i])
      invariant warnings == Warnings(file, errs, rs[..i])
      invariant !Reached(errs, rs[..i], maxN)
    {
      if items[i].Failure? {
        StopsAtFailure(file, items, errs, maxN, i);
        return Failure(items[i].error), warnings;
      }
      var rec := items[i].value;
      assert i < FirstFailure(items) && rs[i] == rec;
      ValidStep(errs, rs, i);
      WarningsStep(file, errs, rs, i);
      var errors := errs(rec);
      if |errors| > 0 {
        warnings := warnings + [Warning(file, i, errors[0])];
      } else {
        filtered := filtered + [rec];
        if BreakTest(maxN, |filtered|) {
          StopsAtLimit(file, items, errs, maxN, i);
          return Success(filtered), warnings;
        }
      }
      i := i + 1;
    }
    assert rs[..i] == rs;
    RunsToEnd(file, items, errs, maxN);
    result := Success(filtered);
  }

  /** The loop sees one record per outcome before the first failure, each that outcome's record. */
  lemma ParsedPrefix<R, E>(items: seq<Result<R, E>>)
    ensures |Parsed(items)| == FirstFailure(items)
    ensures forall k :: 0 <= k < |Parsed(items)| ==> items[k] == Success(Parsed(items)[k])
  {
  }

  /** When every line parses, the loop's records are exactly the parsed ones. */
  lemma ParsedAll<R, E>(items: seq<Result<R, E>>)
    requires forall k :: 0 <= k < |items| ==> items[k].Success?
    ensures FirstFailure(items) == |items|
    ensures Parsed(items) == Values(items)
  {
    assert items[..|items|] == items;
  }

  /**
   * Laziness: once the lines read so far fill the limit, whatever follows (malformed lines
   * included) is never parsed, so it changes neither the result nor the warnings.
   */
  lemma LinesAfterLimitUnread<R, E>(file: string, items: seq<Result<R, E>>, more: seq<Result<R, E>>,
                                    errs: R -> seq<string>, maxN: Option<int>)
    requires forall k :: 0 <= k < |items| ==> items[k].Success?
    requires Reached(errs, Values(items), maxN)
    ensures SplitResult(items + more, errs, maxN) == Success(FilterCap(errs, Values(items), maxN))
    ensures SplitWarnings(file, items + more, errs, maxN) == SplitWarnings(file, items, errs, maxN)
  {
    var all := items + more;
    assert forall k :: 0 <= k < |items| ==> all[k].Success?;
    var f := FirstFailure(all);
    assert f >= |items|;
    var rs := Parsed(all);
    assert rs[..|items|] == Values(items);
    ReachedPrefix(errs, rs, |items|, maxN);
    ParsedAll(items);
    var c := Consumed(errs, rs, maxN);
    assert rs[..c] == Values(items)[..c];
  }

  /**
   * With every line parsing and no limit, each record is either kept or warned about:
   * `accepted + rejected == N`.
   */
  lemma CountsAddUp<R, E>(file: string, items: seq<Result<R, E>>, errs: R -> seq<string>, maxN: Option<int>)
    requires forall k :: 0 <= k < |items| ==> items[k].Success?
    requires maxN == None || maxN == Some(0)
    ensures SplitResult(items, errs, maxN).Success?
    ensures |SplitResult(items, errs, maxN).value| + |SplitWarnings(file, items, errs, maxN)| == |items|
  {
    ParsedAll(items);
    var rs := Values(items);
    assert rs[..|rs|] == rs;
    WarningsCount(file, errs, rs);
  }

  /** A sequence of accepted records draws no warning, from any prefix of it. */
  lemma NoRejectedNoWarnings<R>(file: string, errs: R -> seq<string>, rs: seq<R>, c: nat)
    requires c <= |rs|
    requires forall k :: 0 <= k < |rs| ==> Accepts(errs, rs[k])
    ensures Warnings(file, errs, rs[..c]) == []
  {
    assert forall k :: 0 <= k < c ==> rs[..c][k] == rs[k];
    KeepAll(Check(errs), rs[..c]);
    WarningsCount(file, errs, rs[..c]);
  }

  /**
   * Re-validating a written split: reading back the written records and filtering them again
   * with the same validator and limit keeps all of them and prints no warning.
   */
  lemma RereadKeepsEverything<R, E>(file: string, items: seq<Result<R, E>>, errs: R -> seq<string>,
                                    maxN: Option<int>, encode: R -> string, parse: string -> Result<R, E>)
    requires SplitResult(items, errs, maxN).Success?
    requires var kept := SplitResult(items, errs, maxN).value;
             forall k :: 0 <= k < |kept| ==> Encodes(encode, parse, kept[k])
    ensures var again := Load(Write(encode, SplitResult(items, errs, maxN).value), parse);
            && SplitResult(again, errs, maxN) == SplitResult(items, errs, maxN)
            && SplitWarnings(file, again, errs, maxN) == []
  {
    var kept := SplitResult(items, errs, maxN).value;
    var rs := Parsed(items);
    assert kept == FilterCap(errs, rs, maxN);
    var again := Load(Write(encode, kept), parse);
    LoadOfWrite(encode, parse, kept);
    ParsedAll(again);
    assert Parsed(again) == kept;
    FilterCapIdempotent(errs, rs, maxN);
    FilterCapIsValidSubsequence(errs, rs, maxN);
    assert SplitResult(again, errs, maxN) == Success(kept);
    NoRejectedNoWarnings(file, errs, kept, Consumed(errs, kept, maxN));
  }

  /** `RereadKeepsEverything` for a split known to keep `kept`. */
  lemma RereadWritten<R, E>(file: string, items: seq<Result<R, E>>, errs: R -> seq<string>, maxN: Option<int>,
                            encode: R -> string, parse: string -> Result<R, E>, kept: seq<R>)
    requires SplitResult(items, errs, maxN) == Success(kept)
    requires forall k :: 0 <= k < |kept| ==> Encodes(encode, parse, kept[k])
    ensures SplitResult(Load(Write(encode, kept), parse), errs, maxN) == Success(kept)
    ensures SplitWarnings(file, Load(Write(encode, kept), parse), errs, maxN) == []
  {
    RereadKeepsEverything(file, items, errs, maxN, encode, parse);
  }
}
