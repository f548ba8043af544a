# Dataset preparation: filter, cap and write JSONL splits

A Dafny model of `scripts/prepare_dataset.py`, the dataset preparation step of a fine-tuning
proof of concept. `validate_dataset` reads a train and an eval file of JSON Lines. It checks
each record against a JSON Schema, keeps the accepted records up to an optional per-split
limit, and prints a `[WARN]` line for every record it skips. It then writes the kept records
next to each input as `train.valid.jsonl` and `eval.valid.jsonl`, and returns the two paths.

The model is pure. Files are passed in as their decoded text, and the files a run writes are
returned as data. Records are an opaque type `R`. `json.loads` and `json.dumps` become
function parameters (`parse`, `encode`). The schema validator becomes a function from a
record to the messages `iter_errors` yields.

Modules, in dependency order:

- `Base`: `Option`, `Result`, `Min`.
- `Seqs`: order-preserving filtering (`Keep`) and the subsequence relation.
- `Text`: how Python reads a text file. It covers universal newlines, iteration by line with
  the `\n` kept, and `str.strip()` with the exact `str.isspace()` character set.
- `Jsonl`: `_load_jsonl` (lines 15-19) and `_write_jsonl` (lines 22-25).
  - Reading yields one parse outcome per non-blank line. A failed `json.loads` is a `Failure`
    outcome.
  - The generator is lazy: an outcome only matters if the loop reaches it.
- `Selection`: the filter-and-cap rule of `_validate_and_limit` (lines 42-55), stated on the
  records read.
  - `FilterCap` is the declarative result.
  - `Warnings` lists the `[WARN]` lines.
  - `Limit` interprets `if max_n and len(filtered) >= max_n`.
- `Split`: `_validate_and_limit` driven by the lazy reader.
  - `SplitResult` and `SplitWarnings` are the reference definitions.
  - `ValidateAndLimit` mirrors the `for`/`break` loop statement by statement. Its loop
    invariants prove it equals the reference.
- `Paths`: the POSIX `pathlib` operations the script uses: `Path(s)`, `.name`, `.with_name(n)`
  and `str(p)`, and also `.parent`, which the script never calls but the model uses to state
  what `with_name` keeps.
- `Pipeline`: `validate_dataset` (lines 28-67). It covers the schema parse, train then eval,
  output naming, writing and the returned paths.

Three consequences of the code are worth stating up front:

- The index `i` in a `[WARN]` line is the 0-based position of the record among the non-blank
  lines of the file, not a physical line number (`Selection.WarningsSound`,
  `Jsonl.ContentLinePosition`).
- A split with no accepted record is written and counted like any other; it is not an error
  (`Pipeline.SucceedsIff`).
- A line `json.loads` rejects makes the run raise only if the loop reaches it before the limit
  stops it (`Split.StopsAtFailure`, `Split.LinesAfterLimitUnread`).

## Model

| member | source | states |
|---|---|---|
| Text.IsSpace | scripts/prepare_dataset.py:18 | the characters `str.strip()` removes: exactly those for which Python's `str.isspace()` holds (used by `Text.LStrip`, `Text.RStrip` and `Text.BlankIffAllSpace`) |
| Text.LStrip | scripts/prepare_dataset.py:18 | the result is a suffix of the line; everything removed is whitespace; the result does not start with whitespace |
| Text.RStrip | scripts/prepare_dataset.py:18 | the result is a prefix of the line; everything removed is whitespace; the result does not end with whitespace |
| Text.BlankIffAllSpace | scripts/prepare_dataset.py:18 | `line.strip()` is falsy exactly when every character of the line is Python whitespace |
| Text.IsBlank | scripts/prepare_dataset.py:18 | a line the reader skips because `line.strip()` is empty (its meaning is stated by `Text.BlankIffAllSpace`) |
| Text.Lead | scripts/prepare_dataset.py:18 | the number of leading whitespace characters: all of them are whitespace and the next one is not |
| Text.Strip | scripts/prepare_dataset.py:18 | `line.strip()` is the slice after the leading whitespace, followed in the line only by whitespace, and does not end with whitespace |
| Text.Universal | scripts/prepare_dataset.py:16 | text opened in text mode contains no `\r` after newline translation; text without `\r` is read unchanged |
| Text.UniversalCrLf | scripts/prepare_dataset.py:16 | a `\r\n` pair after text without `\r` is read as a single `\n`, and the rest is translated on its own |
| Text.UniversalLoneCr | scripts/prepare_dataset.py:16 | a `\r` after text without `\r`, and not followed by `\n`, is read as `\n`, and the rest is translated on its own |
| Text.Lines | scripts/prepare_dataset.py:17 | iterating a file gives lines that concatenate back to the text; each line is non-empty with `\n` only at its end, and every line but the last ends in `\n` |
| Text.LinesAppend | scripts/prepare_dataset.py:17 | text cut at a line boundary iterates as the lines of the first part followed by the lines of the second |
| Jsonl.HasContent | scripts/prepare_dataset.py:18 | the reader's test `if line.strip():`, the negation of `Text.IsBlank` (stated by `Jsonl.LoadAt` and `Jsonl.LoadOneLine`) |
| Jsonl.ContentLines | scripts/prepare_dataset.py:16-18 | the lines of the translated text that pass `if line.strip():`, in file order, `\n` kept (stated by `Jsonl.LoadAt`, `Jsonl.ContentLinePosition` and `Jsonl.BlankLineIgnored`) |
| Jsonl.Load | scripts/prepare_dataset.py:15-19 | `_load_jsonl`: one `json.loads` outcome per non-blank line of the translated text, in file order (its meaning is stated by `Jsonl.LoadAt`) |
| Jsonl.LoadAt | scripts/prepare_dataset.py:17-19 | the `k`-th outcome read is `json.loads` of the `k`-th non-blank line, and that line is not blank |
| Jsonl.Write | scripts/prepare_dataset.py:22-25 | `_write_jsonl`: each record's `json.dumps` text followed by `\n`, in order (its meaning is stated by `Jsonl.LinesOfWrite`) |
| Jsonl.LinesOfWrite | scripts/prepare_dataset.py:22-25 | when no encoding contains `\n`, written text iterates as exactly one line per record, that record's encoding followed by `\n` |
| Jsonl.FirstFailure | scripts/prepare_dataset.py:19 | the position of the first line `json.loads` rejects: every earlier outcome is a success, and the outcome there is a failure |
| Jsonl.LoadAppend | scripts/prepare_dataset.py:15-19 | reading two files joined at a line boundary yields the outcomes of the first followed by those of the second |
| Jsonl.LoadOneLine | scripts/prepare_dataset.py:17-19 | a single physical line yields nothing when it is blank, and otherwise exactly one outcome, its own parse |
| Jsonl.BlankLineIgnored | scripts/prepare_dataset.py:17-19 | inserting a blank line between two lines leaves the outcomes read unchanged, so later indices do not move |
| Jsonl.ContentLinePosition | scripts/prepare_dataset.py:17-19 | a non-blank line's parse appears at the position equal to the number of non-blank lines before it |
| Jsonl.LoadOfWrite | scripts/prepare_dataset.py:22-25 | reading back written records yields one successful parse per record, in order, provided encodings are newline-free, not blank and parse back |
| Jsonl.WriteThenRead | scripts/prepare_dataset.py:15-25 | round trip: draining the reader over what `_write_jsonl` wrote returns exactly the records written |
| Selection.Accepts | scripts/prepare_dataset.py:45-46 | a record is kept when `iter_errors` yields no message, the negation of `if errors:` (used by `Selection.WarningsSound`, `Selection.WarningsComplete` and `Selection.FilterCapIsValidSubsequence`) |
| Selection.Warnings | scripts/prepare_dataset.py:44-51 | one `[WARN]` line per rejected record, in order (its meaning is stated by `Selection.WarningsSound`, `Selection.WarningsComplete` and `Selection.WarningsCount`) |
| Selection.BreakTest | scripts/prepare_dataset.py:53 | the loop's break test `max_n and len(filtered) >= max_n` |
| Selection.Limit | scripts/prepare_dataset.py:53 | the break test holds for `count >= 1` accepted records exactly when there is a limit and `count` has reached it; `None` and `0` mean no limit, a negative value breaks after the first record |
| Selection.FilterCap | scripts/prepare_dataset.py:42-55 | the kept records are a prefix of the accepted ones, never more than the limit, and shorter than all accepted records only when the limit was reached |
| Selection.Consumed | scripts/prepare_dataset.py:53-54 | how many records the loop reads: never more than there are; all of them without a limit (`Selection.FilterCapNoLimit`), and exactly up to the record that fills the limit otherwise (`Selection.StopAtExact`) |
| Selection.WarningsCount | scripts/prepare_dataset.py:44-52 | accepted plus warned records equals the number of records consumed |
| Selection.WarningsSound | scripts/prepare_dataset.py:44-51 | every warning carries the file name, the index of a rejected record and that record's first error message; indices strictly increase |
| Selection.WarningsComplete | scripts/prepare_dataset.py:44-51 | every rejected record gets a warning carrying its index |
| Selection.StopAtExact | scripts/prepare_dataset.py:53-54 | the loop stops at the record whose acceptance fills the limit, and nowhere before |
| Selection.ReachedPrefix | scripts/prepare_dataset.py:53-54 | once a prefix fills the limit, later records change neither the result nor how many records are consumed |
| Selection.FilterCapIsValidSubsequence | scripts/prepare_dataset.py:42-55 | the kept records are a subsequence of the records read, in order, and each is accepted by the validator |
| Selection.FilterCapNoLimit | scripts/prepare_dataset.py:53 | with `max_n` `None` or `0` the result is every accepted record and every record is consumed |
| Selection.FilterCapPositive | scripts/prepare_dataset.py:52-54 | with `max_n = k > 0` the result is the first `min(k, #accepted)` accepted records, never more than `k` |
| Selection.FilterCapNegative | scripts/prepare_dataset.py:53-54 | with negative `max_n` the result has at most one record; it has one exactly when some record is accepted, and it is the first accepted record |
| Selection.FilterCapIdempotent | scripts/prepare_dataset.py:42-55 | filtering the output again with the same validator and limit returns it unchanged |
| Split.Parsed | scripts/prepare_dataset.py:44 | the records the lazy reader yields before its first parse failure (stated by `Split.ParsedPrefix` and `Split.ParsedAll`) |
| Split.ParsedPrefix | scripts/prepare_dataset.py:44 | the records the `for` loop can see: one per parse outcome before the first line `json.loads` rejects, each the record that outcome carries (`Split.Parsed`) |
| Split.SplitResult | scripts/prepare_dataset.py:42-55 | the reference outcome of a split: its records, or the parse error of the first malformed line the loop reaches (its meaning is stated by `Split.StopsAtFailure`, `Split.StopsAtLimit` and `Split.RunsToEnd`) |
| Split.SplitWarnings | scripts/prepare_dataset.py:44-51 | the reference warnings of a split: one per rejected record among those the loop consumes (stated by the same three lemmas) |
| Split.StopsAtFailure | scripts/prepare_dataset.py:44 | a malformed line reached before the limit makes the split raise that line's error, after warning for the records before it |
| Split.StopsAtLimit | scripts/prepare_dataset.py:53-55 | when record `i` fills the limit, the split returns the records accepted up to and including it, with the warnings for those records |
| Split.RunsToEnd | scripts/prepare_dataset.py:44-55 | with no malformed line and the limit never reached, the split returns every accepted record and warns for every rejected one |
| Split.ValidateAndLimit | scripts/prepare_dataset.py:42-55 | the imperative loop returns (or raises) and warns exactly as the declarative reference `SplitResult`/`SplitWarnings` says |
| Split.ParsedAll | scripts/prepare_dataset.py:44 | when every line parses, the loop sees every parsed record |
| Split.LinesAfterLimitUnread | scripts/prepare_dataset.py:44-54 | lines after the point where the limit is reached, malformed ones included, change neither the result nor the warnings |
| Split.CountsAddUp | scripts/prepare_dataset.py:44-52 | with every line parsing and no limit, the split succeeds and kept plus warned equals the number of non-blank lines |
| Split.NoRejectedNoWarnings | scripts/prepare_dataset.py:46-51 | records that are all accepted draw no warning |
| Split.RereadKeepsEverything | scripts/prepare_dataset.py:42-55 | re-reading and re-filtering a written split with the same validator and limit gives the same result and no warnings |
| Paths.Parse | scripts/prepare_dataset.py:35-36 | `Path(s)` always gives a well-formed path: a POSIX root and components that are non-empty, free of `/` and not `.` |
| Paths.Str | scripts/prepare_dataset.py:67 | `str(p)` of a well-formed path is never empty (`Paths.ParseStr` states that it parses back to `p`) |
| Paths.Name | scripts/prepare_dataset.py:49 | `p.name`: the last component, or empty when there is none (used by `Paths.WithName` and `Pipeline.Sibling`) |
| Paths.Parent | scripts/prepare_dataset.py:60-61 | `p.parent`: the path without its last component (used by `Paths.WithName` and `Pipeline.Sibling`) |
| Paths.SplitSlash | scripts/prepare_dataset.py:35-36 | splitting a path string at `/` gives separator-free pieces that join back to the string |
| Paths.WithName | scripts/prepare_dataset.py:60-61 | `with_name` succeeds exactly when the path has a name and the new name is one component; the result then has the new name and the same parent |
| Paths.ParseStr | scripts/prepare_dataset.py:67 | the string of a parsed path parses back to the same path |
| Paths.WithNameIgnoresOldName | scripts/prepare_dataset.py:60-61 | the output path depends on the input only through its parent, whatever the input file is called |
| Pipeline.Schema | scripts/prepare_dataset.py:39 | the schema is `json.loads` of the schema file's text after newline translation, as `read_text` opens it in text mode |
| Pipeline.SchemaErrors | scripts/prepare_dataset.py:40-45 | the validator built from the parsed schema: a record's messages are what `iter_errors(rec)` yields against that schema (used by `Pipeline.SucceedsIff` through the run's validator) |
| Pipeline.OutputNamesArePlain | scripts/prepare_dataset.py:60-61 | both fixed output names are single path components, so `with_name` never rejects them |
| Pipeline.Sibling | scripts/prepare_dataset.py:60-61 | naming an output succeeds exactly when the input path has a name; the output then has the fixed name and the input's parent |
| Pipeline.Emit | scripts/prepare_dataset.py:60-67 | nothing is written unless both names succeed; then each output holds its records one per line, under the fixed sibling name, and the counts are the split sizes |
| Pipeline.Finish | scripts/prepare_dataset.py:57-67 | a failed split stops the run with its parse error before anything is written; otherwise the outputs are emitted (its meaning is stated by `Pipeline.SucceedsIff`) |
| Pipeline.Combine | scripts/prepare_dataset.py:57-67 | a run once both splits are known: the train warnings, then the eval warnings only if train succeeded, then what `Finish` writes and returns (stated by `Pipeline.SucceedsIff` and `Pipeline.CombineIgnoresWarnings`) |
| Pipeline.Validated | scripts/prepare_dataset.py:57-58 | with the validator built, train is filtered, then eval, each warning under its own input's `p.name`, and the results are combined (stated by `Pipeline.SucceedsIff`) |
| Pipeline.ValidateDataset | scripts/prepare_dataset.py:28-67 | a failed run writes nothing; a successful run writes exactly two files, at the returned paths, named `train.valid.jsonl` and `eval.valid.jsonl` beside their inputs (their contents and the warnings are stated by `Pipeline.SucceedsIff`) |
| Pipeline.SucceedsIff | scripts/prepare_dataset.py:39-67 | a run succeeds exactly when the schema parses, both splits succeed and both input paths have a name; an empty split is no error. On success the two files hold the two splits' records, one per line, and the counts are their sizes. Once the schema parses, the warnings are those of train followed, if train succeeded, by those of eval; a schema that fails to parse prints none |
| Pipeline.CombineIgnoresWarnings | scripts/prepare_dataset.py:57-66 | once both splits succeed, what is written and returned does not depend on the warnings printed |
| Pipeline.RerunCombines | scripts/prepare_dataset.py:57-66 | a run whose splits give known results without warnings writes and returns what those results determine, and prints nothing |
| Pipeline.RerunOnWritten | scripts/prepare_dataset.py:57-58 | filtering the files written from two successful splits again, with the same validator and limits, gives those splits back and prints no warning, provided every kept record's `json.dumps` text is one non-blank line that parses back to it |
| Pipeline.RerunIsStable | scripts/prepare_dataset.py:28-67 | running again with the same paths, schema and limits, but with the inputs' texts replaced by the texts a successful run wrote, prints no warning and writes and returns exactly the same |

## Left out

- Reading and writing files, UTF-8 decoding and encoding, and `print` are not modelled. File contents are inputs, written files are outputs, and printed lines become `Warning` values and the `Done` counts. The exact text of the `[WARN]` and `[OK]` lines is not modelled.
- A missing or unreadable input file (`open` or `read_text` raising) is not modelled, because the model receives file contents rather than opening files. This covers an input path with an empty name (`""`, `.`, `/`, `//`): such a path is a directory, so a real run raises at `path.open` (line 16) before `with_name` is reached. The model's `BadPath` outcome for such a path, and the warnings printed before it, therefore never occur in a real run.
- `json.loads`, `json.dumps` and `Draft202012Validator` are abstract parameters. The JSON grammar and the JSON Schema Draft 2020-12 semantics are not modelled.
- Jsonl.WriteThenRead: assumes, as a precondition, that a record's `json.dumps` text has no line break, is not whitespace-only, and parses back to that record. `json.dumps` escapes `\n` and `\r` and never emits blank text. Parsing back to an equal value fails for records holding `NaN`, which is not equal to itself after parsing. A string holding a lone surrogate such as `"\ud800"` makes the UTF-8 write raise. So the round trip is not promised for such records.
- Pipeline.RerunIsStable: rests on the same assumption about `json.dumps`, for every record, and so is not promised for records holding `NaN` or lone surrogates.
- Building the validator and running it (`Draft202012Validator(schema)` and `iter_errors`) is assumed never to raise. An invalid schema or a validator error would make the real run raise where the model succeeds.
- Pipeline.SucceedsIff: its if-and-only-if rests on that assumption; the model has no outcome for a validator that raises.
- Only `\n`, `\r\n` and `\r` are line breaks when reading, as in Python's text-mode file iteration. `str.splitlines` boundaries play no part.
- Writing uses `\n` as written. On Windows, text mode would write `\r\n`. That is not modelled, and it would not change what is read back.
- Paths follow POSIX `pathlib`. Windows drives and `\` separators are not modelled. `with_name` validity follows current CPython: a name must be non-empty, contain no `/` and not be `.`.
- `scripts/load_model_generic.py` (model download and loading) is not part of this model: it calls external libraries and shares no data with this step.
