/**
 * `validate_dataset` (scripts/prepare_dataset.py): parse the schema, filter the train split and
 * then the eval split, name the two outputs as fixed siblings of the inputs, and write them.
 * File contents arrive as decoded text; the files written are returned as data.
 */
module Pipeline {
  import opened Base
  import opened Jsonl
  import opened Selection
  import opened Split
  import opened Paths
  import Text

  const TrainOutName := "train.valid.jsonl"
  const EvalOutName := "eval.valid.jsonl"

  /**
   * The library calls the script makes: `json.loads`, `json.dumps(..., ensure_ascii=False)` and
   * `Draft202012Validator(schema).iter_errors(rec)`, the last as messages for (schema, record).
   */
  datatype Library<!R, E> = Library(parse: string -> Result<R, E>, encode: R -> string, iterErrors: (R, R) -> seq<string>)

  /** The arguments of `validate_dataset`, with each file replaced by its text. */
  datatype Inputs = Inputs(trainPath: string, evalPath: string, schemaText: string, trainText: string,
                           evalText: string, maxTrain: Option<int>, maxEval: Option<int>)

  /** What makes `validate_dataset` raise: a line or schema `json.loads` rejects, or a path `with_name` refuses. */
  datatype Fault<E> = JsonError(error: E) | BadPath(reason: PathError)

  datatype Written = Written(path: string, text: string)

  /** The returned output paths, and the counts of the `[OK]` summary line. */
  datatype Done = Done(trainOut: string, evalOut: string, trainCount: nat, evalCount: nat)

  /** Everything a run does: the warnings it prints, the files it writes, and what it returns or raises. */
  datatype Report<E> = Report(warnings: seq<Warning>, written: seq<Written>, outcome: Result<Done, Fault<E>>)

  /**
   * Line 39: `read_text` opens the schema in text mode, so its newlines are translated as the
   * split files' are, and `json.loads` parses the translated text.
   */
  function Schema<R, E>(lib: Library<R, E>, args: Inputs): Result<R, E>
  {
    lib.parse(Text.Universal(args.schemaText))
  }

  /** The validator built from a parsed schema. */
  function SchemaErrors<R>(iterErrors: (R, R) -> seq<string>, schema: R): R -> seq<string>
  {
    r => iterErrors(schema, r)
  }

  /** Both fixed output names are single path components, so `with_name` accepts them. */
  lemma OutputNamesArePlain()
    ensures IsPart(TrainOutName) && IsPart(EvalOutName)
  {
  }

  /**
   * `str(Path(path).with_name(name))`: the path text of the file called `name` in the directory
   * of `path`, whatever `path` itself is called.
   */
  function Sibling(path: string, name: string): (r: Result<string, PathError>)
    ensures r.Success? <==> Name(Parse(path)) != "" && IsPart(name)
    ensures r.Success? ==> Name(Parse(r.value)) == name && Parent(Parse(r.value)) == Parent(Parse(path))
  {
    match WithName(Parse(path), name)
    case Failure(why) => Failure(why)
    case Success(p) =>
      ParseStr(p);
      Success(Str(p))
  }

  /** The files a run writes and what it returns or raises, once both splits are filtered. */
  datatype Output<E> = Output(written: seq<Written>, outcome: Result<Done, Fault<E>>)

  /**
   * Lines 60-66: name each output as the fixed sibling of its input, write the kept records,
   * and return both paths. Nothing is written if either name is refused.
   */
  function Emit<R, E>(encode: R -> string, trainPath: string, evalPath: string, train: seq<R>, eval: seq<R>)
    : (out: Output<E>)
    ensures out.outcome.Success? <==> Name(Parse(trainPath)) != "" && Name(Parse(evalPath)) != ""
    ensures out.outcome.Failure? ==> out.written == []
    ensures out.outcome.Success? ==>
              var d := out.outcome.value;
              && out.written == [Written(d.trainOut, Write(encode, train)), Written(d.evalOut, Write(encode, eval))]
              && d.trainCount == |train| && d.evalCount == |eval|
              && Name(Parse(d.trainOut)) == TrainOutName
              && Parent(Parse(d.trainOut)) == Parent(Parse(trainPath))
              && Name(Parse(d.evalOut)) == EvalOutName
              && Parent(Parse(d.evalOut)) == Parent(Parse(evalPath))
  {
    OutputNamesArePlain();
    match Sibling(trainPath, TrainOutName)
    case Failure(why) => Output([], Failure(BadPath(why)))
    case Success(trainOut) =>
      match Sibling(evalPath, EvalOutName)
      case Failure(why) => Output([], Failure(BadPath(why)))
      case Success(evalOut) =>
        Output([Written(trainOut, Write(encode, train)), Written(evalOut, Write(encode, eval))],
               Success(Done(trainOut, evalOut, |train|, |eval|)))
  }

  /** What a run writes and returns once each split's outcome is known: a failed split stops it. */
  function Finish<R, E>(encode: R -> string, trainPath: string, evalPath: string,
                        train: Result<seq<R>, E>, eval: Result<seq<R>, E>): Output<E>
  {
    if train.Failure? then Output([], Failure(JsonError(train.error)))
    else if eval.Failure? then Output([], Failure(JsonError(eval.error)))
    else Emit(encode, trainPath, evalPath, train.value, eval.value)
  }

  /**
   * Lines 57-66 once each split's outcome and warnings are known: train is filtered first, so
   * a train failure stops the run before eval prints anything.
   */
  function Combine<R, E>(encode: R -> string, trainPath: string, evalPath: string,
                         train: Result<seq<R>, E>, trainWarnings: seq<Warning>,
                         eval: Result<seq<R>, E>, evalWarnings: seq<Warning>): Report<E>
  {
    var out := Finish(encode, trainPath, evalPath, train, eval);
    Report(if train.Failure? then trainWarnings else trainWarnings + evalWarnings, out.written, out.outcome)
  }

  /** Lines 57-66 with the validator built: filter train, then eval, then emit. */
  function Validated<R, E>(lib: Library<R, E>, args: Inputs, errs: R -> seq<string>): Report<E>
  {
    var trainItems := Load(args.trainText, lib.parse);
    var evalItems := Load(args.evalText, lib.parse);
    Combine(lib.encode, args.trainPath, args.evalPath,
            SplitResult(trainItems, errs, args.maxTrain),
            SplitWarnings(Name(Parse(args.trainPath)), trainItems, errs, args.maxTrain),
            SplitResult(evalItems, errs, args.maxEval),
            SplitWarnings(Name(Parse(args.evalPath)), evalItems, errs, args.maxEval))
  }

  /**
   * `validate_dataset`. Nothing is written unless every step succeeds; when it does, each
   * output is a sibling of its input named `train.valid.jsonl` or `eval.valid.jsonl`.
   */
  function ValidateDataset<R, E>(lib: Library<R, E>, args: Inputs): (rep: Report<E>)
    ensures rep.outcome.Failure? ==> rep.written == []
    ensures rep.outcome.Success? ==>
              var d := rep.outcome.value;
              && |rep.written| == 2
              && rep.written[0].path == d.trainOut && rep.written[1].path == d.evalOut
              && Name(Parse(d.trainOut)) == TrainOutName
              && Parent(Parse(d.trainOut)) == Parent(Parse(args.trainPath))
              && Name(Parse(d.evalOut)) == EvalOutName
              && Parent(Parse(d.evalOut)) == Parent(Parse(args.evalPath))
  {
    match Schema(lib, args)
    case Failure(e) => Report([], [], Failure(JsonError(e)))
    case Success(schema) => Validated(lib, args, SchemaErrors(lib.iterErrors, schema))
  }

  /** The validator a run uses, when its schema parses. */
  function RunValidator<R, E>(lib: Library<R, E>, args: Inputs): R -> seq<string>
    requires Schema(lib, args).Success?
  {
    SchemaErrors(lib.iterErrors, Schema(lib, args).value)
  }

  /**
   * A run succeeds exactly when the schema parses, neither split reaches a malformed line before
   * its limit, and both input paths have a name. How many records survive plays no part: an
   * empty split is written and counted like any other. A successful run writes each split's
   * records one per line; the warnings are train's, then eval's unless train raised.
   */
  lemma SucceedsIff<R, E>(lib: Library<R, E>, args: Inputs)
    ensures var rep := ValidateDataset(lib, args);
            rep.outcome.Success? <==>
              && Schema(lib, args).Success?
              && SplitResult(Load(args.trainText, lib.parse), RunValidator(lib, args), args.maxTrain).Success?
              && SplitResult(Load(args.evalText, lib.parse), RunValidator(lib, args), args.maxEval).Success?
              && Name(Parse(args.trainPath)) != ""
              && Name(Parse(args.evalPath)) != ""
    ensures var rep := ValidateDataset(lib, args);
            rep.outcome.Success? ==>
              var train := SplitResult(Load(args.trainText, lib.parse), RunValidator(lib, args), args.maxTrain).value;
              var eval := SplitResult(Load(args.evalText, lib.parse), RunValidator(lib, args), args.maxEval).value;
              && rep.outcome.value.trainCount == |train|
              && rep.outcome.value.evalCount == |eval|
              && rep.written[0].text == Write(lib.encode, train)
              && rep.written[1].text == Write(lib.encode, eval)
    ensures var rep := ValidateDataset(lib, args);
            Schema(lib, args).Success? ==>
              var errs := RunValidator(lib, args);
              var trainItems, evalItems := Load(args.trainText, lib.parse), Load(args.evalText, lib.parse);
              var trainWarnings := SplitWarnings(Name(Parse(args.trainPath)), trainItems, errs, args.maxTrain);
              rep.warnings
                == if SplitResult(trainItems, errs, args.maxTrain).Failure? then trainWarnings
                   else trainWarnings + SplitWarnings(Name(Parse(args.evalPath)), evalItems, errs, args.maxEval)
    ensures Schema(lib, args).Failure? ==> ValidateDataset(lib, args).warnings == []
  {
    if Schema(lib, args).Success? {
      var errs := RunValidator(lib, args);
      assert ValidateDataset(lib, args) == Validated(lib, args, errs);
    }
  }

  /** Once both splits succeed, what a run writes and returns does not depend on the warnings printed. */
  lemma CombineIgnoresWarnings<R, E>(encode: R -> string, trainPath: string, evalPath: string,
                                     train: Result<seq<R>, E>, trainWarnings: seq<Warning>,
                                     eval: Result<seq<R>, E>, evalWarnings: seq<Warning>)
    requires Combine(encode, trainPath, evalPath, train, trainWarnings, eval, evalWarnings).outcome.Success?
    ensures train.Success? && eval.Success?
    ensures var quiet := Combine(encode, trainPath, evalPath, train, [], eval, []);
            var loud := Combine(encode, trainPath, evalPath, train, trainWarnings, eval, evalWarnings);
            && quiet.warnings == []
            && quiet.written == loud.written
            && quiet.outcome == loud.outcome
            && loud.written[0].text == Write(encode, train.value)
            && loud.written[1].text == Write(encode, eval.value)
  {
    var out := Finish(encode, trainPath, evalPath, train, eval);
    assert Combine(encode, trainPath, evalPath, train, trainWarnings, eval, evalWarnings).outcome == out.outcome;
    assert train.Success? && eval.Success?;
    assert out == Emit(encode, trainPath, evalPath, train.value, eval.value);
  }

  /** With the run's validator, the split of `trainText` gives `train`, that of `evalText` gives `eval`, and neither prints anything. */
  ghost predicate Quiet<R, E>(lib: Library<R, E>, args: Inputs, trainText: string, evalText: string,
                        train: Result<seq<R>, E>, eval: Result<seq<R>, E>)
    requires Schema(lib, args).Success?
  {
    var errs := RunValidator(lib, args);
    && SplitResult(Load(trainText, lib.parse), errs, args.maxTrain) == train
    && SplitWarnings(Name(Parse(args.trainPath)), Load(trainText, lib.parse), errs, args.maxTrain) == []
    && SplitResult(Load(evalText, lib.parse), errs, args.maxEval) == eval
    && SplitWarnings(Name(Parse(args.evalPath)), Load(evalText, lib.parse), errs, args.maxEval) == []
  }

  /** A run over texts whose splits give known outcomes and print nothing. */
  lemma RerunCombines<R, E>(lib: Library<R, E>, args: Inputs, trainText: string, evalText: string,
                            train: Result<seq<R>, E>, eval: Result<seq<R>, E>)
    requires Schema(lib, args).Success?
    requires Quiet(lib, args, trainText, evalText, train, eval)
    ensures ValidateDataset(lib, args.(trainText := trainText, evalText := evalText))
         == Combine(lib.encode, args.trainPath, args.evalPath, train, [], eval, [])
  {
    var args' := args.(trainText := trainText, evalText := evalText);
    assert ValidateDataset(lib, args') == Validated(lib, args', RunValidator(lib, args));
  }

  /** Re-reading the files written from two successful splits gives those splits back and prints nothing. */
  lemma RerunOnWritten<R, E>(lib: Library<R, E>, args: Inputs, train: seq<R>, eval: seq<R>)
    requires Schema(lib, args).Success?
    requires SplitResult(Load(args.trainText, lib.parse), RunValidator(lib, args), args.maxTrain) == Success(train)
    requires SplitResult(Load(args.evalText, lib.parse), RunValidator(lib, args), args.maxEval) == Success(eval)
    requires forall k :: 0 <= k < |train| ==> Encodes(lib.encode, lib.parse, train[k])
    requires forall k :: 0 <= k < |eval| ==> Encodes(lib.encode, lib.parse, eval[k])
    ensures Quiet(lib, args, Write(lib.encode, train), Write(lib.encode, eval), Success(train), Success(eval))
  {
    var errs := RunValidator(lib, args);
    RereadWritten(Name(Parse(args.trainPath)), Load(args.trainText, lib.parse), errs, args.maxTrain,
                  lib.encode, lib.parse, train);
    RereadWritten(Name(Parse(args.evalPath)), Load(args.evalText, lib.parse), errs, args.maxEval,
                  lib.encode, lib.parse, eval);
  }

  /**
   * Running again on the files a successful run wrote, with the same schema, paths and limits,
   * prints no warning and writes and returns exactly the same, provided `json.dumps` output
   * parses back to the record on a line of its own.
   */
  lemma RerunIsStable<R, E>(lib: Library<R, E>, args: Inputs)
    requires ValidateDataset(lib, args).outcome.Success?
    requires forall r :: Encodes(lib.encode, lib.parse, r)
    ensures var rep := ValidateDataset(lib, args);
            var again := ValidateDataset(lib, args.(trainText := rep.written[0].text, evalText := rep.written[1].text));
            && again.warnings == []
            && again.written == rep.written
            && again.outcome == rep.outcome
  {
    var rep := ValidateDataset(lib, args);
    var errs := RunValidator(lib, args);
    var trainItems, evalItems := Load(args.trainText, lib.parse), Load(args.evalText, lib.parse);
    var train, eval := SplitResult(trainItems, errs, args.maxTrain), SplitResult(evalItems, errs, args.maxEval);
    var tw := SplitWarnings(Name(Parse(args.trainPath)), trainItems, errs, args.maxTrain);
    var ew := SplitWarnings(Name(Parse(args.evalPath)), evalItems, errs, args.maxEval);
    assert rep == Combine(lib.encode, args.trainPath, args.evalPath, train, tw, eval, ew) by {
      assert rep == Validated(lib, args, errs);
    }
    CombineIgnoresWarnings(lib.encode, args.trainPath, args.evalPath, train, tw, eval, ew);
    EncodesEach(lib.encode, lib.parse, train.value);
    EncodesEach(lib.encode, lib.parse, eval.value);
    RerunOnWritten(lib, args, train.value, eval.value);
    RerunCombines(lib, args, Write(lib.encode, train.value), Write(lib.encode, eval.value), train, eval);
  }
}
