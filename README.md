# Data partitioning and worker identity for distributed JMeter runs

This project models, in Dafny, how each load-test worker of a distributed
JMeter run decides which rows of the shared input files it keeps.

- **Frame processor** (`LocalJMeterFrameProcessor`). It gives every frame its
  coordinates as five `export`s:
  - global id = frame number + `instance_begin_count`;
  - local id = frame number;
  - the global count, the local count and the location, copied from the
    processor.

  Then it runs `splitFiles.py`, JMeter and the output move, all chained with `&&`.
- **Split script** (`splitFiles.py`). It reads those coordinates back from its
  environment. For each entry of `file_properties` it takes one action:
  - split the file among the region's workers (`REGIONAL`) or all workers (`GLOBAL`);
  - delete it on every worker but one (`UNIQUE_LOCAL`, `UNIQUE_GLOBAL`);
  - leave it alone.

Modules:

- `Outcomes`: `Option`, `Result`, `Outcome` and the errors that stop the script.
- `Numerals`: Python's `int()` on a numeral and `str()` on an int, with the
  round trip between them.
- `WorkerIdentity`: the `Identity` record and the parsing of the five
  environment variables.
- `Partition`: row selection. The intended rule keeps data row `i` (0-based,
  header not counted) iff `i % n == id`. The loop as written is kept beside it.
- `Dispatch`: the per-file branch chain, as intended (`Decide`) and as
  written (`DecideAsWritten`), and the "exactly one holder" lemmas.
- `Splitter`: the worker's files as a class `FileSystem` holding a
  `map<string, seq<string>>`. `SplitFile`, `RemoveFile`, `ProcessEntry` and
  `RunSplitScript` are methods that update the map; the read loop of
  `splitFile` (`CopyKeptRows`) and the loop over entries (`RunEntriesLoop`)
  are `while` loops. Each method is proved against a specification function
  (`SplitEffect`, `RemoveEffect`, `ApplyEntry`, `RunEntries`, `RunScript`).
- `FrameProcessor`: the processor as a value. A frame's command is a list of
  steps, with `&&` semantics and the environment each step sees.

A file that is read is the sequence of lines `readline()` returns, each with
its own terminator. A file that `splitFile` rewrites is the sequence of
strings its `write()` calls wrote: the header line, then one entry per kept
data row. A kept row is written as `f"{line}\n"`, so it gains a second
newline (splitFiles.py:37). The model keeps that extra `"\n"` (`Emit`) and
does not fix it; it keeps such a row as one entry, where reading the file
again would give the row and then a blank line.

Where the intended design and the code differ, the model follows the code:

- `remove_file` on an absent file raises, and the script stops; it is not a
  mere warning.
- The split rewrites the file in place after copying it to `<name>.bak`. It is
  not an atomic swap.
- A missing environment variable raises `KeyError`, which the script does
  not catch. A non-numeric value is caught and makes the script exit. Both
  stop the script before any file is read or changed.

Three defects are recorded under Findings. The rest of the model uses the
corrected behaviour:

- the row selection;
- the `count - 1` partition count;
- the misplaced bracket.

The one caller shown numbers frames from 1 (jmeter/runGlobalJmeter.py:120).
So local ids need not be 0-based, and the lemmas that need 0-based ids take
that as a precondition. `FramesFromOneDropUniqueLocal` shows the consequence
of 1-based frames: every worker deletes a `UNIQUE_LOCAL` file.

## Model

| member | source | states |
|---|---|---|
| `Numerals.ParseInt` | jmeter/splitFiles.py:55-58 | `int()` succeeds exactly on an optionally signed run of digits (otherwise ValueError); an unsigned numeral is never negative |
| `Numerals.NatToString` | jmeter/localizedJmeterProcessor.py:67-70 | the f-string form of a count is a non-empty run of decimal digits |
| `Numerals.ParseIntToString` | jmeter/localizedJmeterProcessor.py:67-70 | every integer the processor formats into an `export` is read back by `int()` as the same integer |
| `WorkerIdentity.ReadInt` | jmeter/splitFiles.py:55-58 | reading one variable succeeds iff it is set and numeric; otherwise the error says whether it was missing (KeyError) or not a number (ValueError) |
| `WorkerIdentity.ParseIdentity` | jmeter/splitFiles.py:54-62 | the identity is obtained iff the four ids and counts are set and numeric and the location is set, and then each field is the parsed variable; `GLOBAL_INSTANCE_ID` absent stops it with that name |
| `Partition.Select` | jmeter/splitFiles.py:31-38 | the data rows partition `id` of `n` keeps, in source order, never more than there are; which rows these are is stated by `SelectStride`, `EveryRowIsKept`, `NoRowKeptTwice` and `PartitionSizesSum` |
| `Partition.SelectStride` | jmeter/splitFiles.py:31-38 | the k-th kept row is data row `id + k*n` and `ceil((rows - id) / n)` rows are kept: an in-order subsequence of the data rows, header never counted |
| `Partition.EveryRowIsKept` | jmeter/splitFiles.py:5-8 | coverage: data row `i` is in partition `i % n`'s output, at position `i / n` |
| `Partition.NoRowKeptTwice` | jmeter/splitFiles.py:5-8 | disjointness: no position of any partition's output comes from row `i` except position `i / n` of partition `i % n` |
| `Partition.PartitionSizesSum` | jmeter/splitFiles.py:5-8 | the outputs of partitions `0..n-1` together have exactly as many rows as the data |
| `Partition.SelectSinglePartition` | jmeter/splitFiles.py:36 | with one partition, every row is kept |
| `Partition.SelectOutOfRange` | jmeter/splitFiles.py:36 | an id outside `0..n-1` keeps no row |
| `Partition.TenRowsThreePartitions` | jmeter/splitFiles.py:31-38 | ten rows over three workers are split as `{0,3,6,9}`, `{1,4,7}`, `{2,5,8}` |
| `Partition.PyMod` | jmeter/splitFiles.py:36-38 | Python's `a % b` is congruent to `a` modulo `b` and takes the divisor's sign: in `[0, b)` for `b > 0`, in `(b, 0]` for `b < 0` |
| `Partition.SelectAsWritten` | jmeter/splitFiles.py:31-38 | the loop as written (`n % index`, then `index = n % (index + 1)`) keeps at most as many rows as there are, when it does not fail |
| `Partition.AsWrittenDividesByZero` | jmeter/splitFiles.py:36 | as written, any file with a data row fails with ZeroDivisionError on the first row |
| `Dispatch.Decide` | jmeter/splitFiles.py:65-74 | one action per entry. REGIONAL without a region fails, and nothing else fails. REGIONAL for the worker's own region splits with (local id, local count); GLOBAL splits with (global id, global count); no other entry is split. An unrecognised scope, or REGIONAL for another region, leaves the file. Delete happens iff UNIQUE_GLOBAL with global id ≠ 0 or UNIQUE_LOCAL with local id ≠ 0 |
| `Dispatch.GlobalRowOneHolder` | jmeter/splitFiles.py:69-70 | GLOBAL: among global ids `0..N-1`, data row `i` is used by exactly worker `i % N` |
| `Dispatch.RegionalRowOneHolder` | jmeter/splitFiles.py:67-68 | REGIONAL for the worker's region: among local ids `0..L-1`, data row `i` is used by exactly worker `i % L` |
| `Dispatch.UniqueGlobalOneHolder` | jmeter/splitFiles.py:71-72 | UNIQUE_GLOBAL: among global ids `0..N-1`, the set of workers keeping the file is `{0}`, of size one |
| `Dispatch.UniqueLocalOneHolder` | jmeter/splitFiles.py:73-74 | UNIQUE_LOCAL: among local ids `0..L-1` of a region, the set of workers keeping the file is `{0}`, of size one |
| `Dispatch.DecideAsWritten` | jmeter/splitFiles.py:65-74 | the chain as written agrees with the intended one outside REGIONAL and GLOBAL, and differs from it for GLOBAL |
| `Dispatch.AsWrittenRegionalRaises` | jmeter/splitFiles.py:68 | as written, a REGIONAL entry for the worker's own region fails (tuple key), where the intended split is (local id, local count) |
| `Dispatch.AsWrittenLastWorkerStarves` | jmeter/splitFiles.py:70 | as written, with N ≥ 2 the worker with global id N-1 is asked for partition N-1 of N-1 and keeps no row |
| `Dispatch.AsWrittenSingleWorkerZeroPartitions` | jmeter/splitFiles.py:70 | as written, a single-worker run asks for zero partitions, where one is intended |
| `Splitter.BackupName` | jmeter/splitFiles.py:25 | the backup name `<name>.bak` never equals the file's own name |
| `Splitter.SplitOutput` | jmeter/splitFiles.py:29-37 | the rewritten file starts with the source's header line (when there is one) and has no more entries than the source had lines |
| `Splitter.SplitEffect` | jmeter/splitFiles.py:24-38 | a split succeeds iff `n ≥ 1` and the file exists. Afterwards `<name>.bak` holds the original, `<name>` holds `SplitOutput` of it, only `<name>.bak` is added, and every other file is unchanged |
| `Splitter.RemoveEffect` | jmeter/splitFiles.py:49-50 | removal succeeds iff the file exists; only that file disappears and every other is unchanged |
| `Splitter.ApplyEntry` | jmeter/splitFiles.py:65-74 | a "leave" decision changes no file, and a failed decision stops the script |
| `Splitter.RunEntries` | jmeter/splitFiles.py:64-74 | entries in order, stopping at the first failure with the earlier changes kept; if every entry is left alone, nothing changes and the script finishes; if some entry cannot be decided, the script stops with an error |
| `Splitter.RunScript` | jmeter/splitFiles.py:52-64 | if the identity cannot be read, the script stops with that error and no file has changed |
| `Splitter.RunLeavesOthers` | jmeter/splitFiles.py:65-74 | a file that no entry names, and that is not the backup of one, exists and has the same contents after the script as before |
| `Splitter.SplitOutputShape` | jmeter/splitFiles.py:29-37 | the rewritten file starts with the source's header line when there is one. Written entry `h + k` is data row `id + k*n` plus `"\n"`. It has the header plus one entry per kept row, so the header is there exactly once even when no row is kept |
| `Splitter.SplitSinglePartition` | jmeter/splitFiles.py:29-37 | one partition rewrites the file as its header plus every data row, each with its extra `"\n"` |
| `Splitter.FileSystem.SplitFile` | jmeter/splitFiles.py:24-38 | copy to `<name>.bak`, truncate, copy the header, then the data loop; the files end up exactly as `SplitEffect` says, and on failure unchanged; no file gets an empty line |
| `Splitter.FileSystem.CopyKeptRows` | jmeter/splitFiles.py:31-38 | the loop reads the backup until `readline()` returns `""` and appends to `<name>` exactly the kept rows `Select` gives, each with its extra `"\n"`, in order; no other file changes |
| `Splitter.FileSystem.ProcessEntry` | jmeter/splitFiles.py:65-74 | one entry: the files and outcome end up exactly as `ApplyEntry` says, unchanged on failure |
| `Splitter.FileSystem.RemoveFile` | jmeter/splitFiles.py:49-50 | the files end up exactly as `RemoveEffect` says |
| `Splitter.FileSystem.RunEntriesLoop` | jmeter/splitFiles.py:64-74 | the `for` loop over the entries, stopping at the first failure; the files and outcome are exactly `RunEntries`'s |
| `Splitter.FileSystem.RunSplitScript` | jmeter/splitFiles.py:52-74 | identity first, then each entry in order until the first failure; the files and outcome are exactly `RunScript`'s |
| `FrameProcessor.IdConfigCommand` | jmeter/localizedJmeterProcessor.py:66-72 | the identity command is five exports |
| `FrameProcessor.FrameCmd` | jmeter/localizedJmeterProcessor.py:45-50 | ten steps; the exports are exactly the first five, the split script is the only Python step and comes sixth, JMeter is ninth and the move of the output is last |
| `FrameProcessor.EnvAtSplit` | jmeter/localizedJmeterProcessor.py:66-72 | the environment the split step sees is the caller's with the five exports applied in order |
| `FrameProcessor.ParseExportedIdentity` | jmeter/splitFiles.py:54-62 | an environment holding the five exported values parses back to exactly the identity they were formatted from |
| `FrameProcessor.SplitSeesFrameIdentity` | jmeter/localizedJmeterProcessor.py:45-50 | the split step is the only script step. It comes right after the five exports, always runs, and reads exactly the frame's identity from its environment |
| `FrameProcessor.TestRunsOnlyAfterSplit` | jmeter/localizedJmeterProcessor.py:46-49 | JMeter starts iff the split, `cd` and `mkdir` succeeded; the output is moved only after JMeter succeeded |
| `FrameProcessor.FramesOfOneProcessor` | jmeter/localizedJmeterProcessor.py:66-72 | read back by the split script: global id − local id = `instance_begin_count`, and local id = frame number. The counts and location are the constructor's whatever the frame. Distinct frames get distinct global ids |
| `FrameProcessor.ZeroBasedFrames` | jmeter/localizedJmeterProcessor.py:13-18 | frames `0..L-1` of a processor whose global range fits the run give 0-based identities |
| `FrameProcessor.FramesFromOneDropUniqueLocal` | jmeter/localizedJmeterProcessor.py:68 | a frame numbered 1 or more deletes every UNIQUE_LOCAL file |

## Findings

| source | as written | input that shows it | evidently intended | confidence | as-written member | corrected member |
|---|---|---|---|---|---|---|
| jmeter/splitFiles.py:36-38 | keeps a row iff `number_of_partitions % index == partition_id`, with `index` starting at 0 and then set to `number_of_partitions % (index + 1)` | any file with at least one data row: the first row divides by zero | a data-row counter `i` that goes up by one per row; keep row `i` iff `i % n == partition_id` | high; not executed | `Partition.AsWrittenDividesByZero` | `Partition.EveryRowIsKept` |
| jmeter/splitFiles.py:70 | GLOBAL splits with `global_instance_count - 1` partitions | count 3, global id 2: partition 2 of 2 keeps no row. Count 1: zero partitions | split with `global_instance_count` partitions | medium; not executed | `Dispatch.AsWrittenLastWorkerStarves` | `Dispatch.GlobalRowOneHolder` |
| jmeter/splitFiles.py:68 | `file["contains_headers", local_instance_id, local_instance_count - 1]` looks up a tuple key | any REGIONAL entry whose region is the worker's location: KeyError | `splitFile(file["filename"], file["contains_headers"], local_instance_id, local_instance_count)` | high; not executed | `Dispatch.AsWrittenRegionalRaises` | `Dispatch.RegionalRowOneHolder` |

## Left out

- Reading `test_plan.json` (`read_file_properties`) is not modelled: the
  entries are an input sequence of `FileSpec` records. Only a missing
  `region` is modelled as a missing key. `contains_headers` is a boolean, not
  Python truthiness.
- Reading the process environment is not modelled: it is an input map from
  names to strings.
- `readline(BUF_SIZE)` returns at most 1024 characters, so a long line
  arrives in pieces. The model treats each line as one whole row.
- `Splitter.SplitEffect` and `Splitter.FileSystem.SplitFile`: a
  partition count below 1 fails with `BadPartitionCount` before the copy,
  and no file changes. `splitFile` itself has no such check. With the
  corrected rule and `n == 0`, it makes `<name>.bak`, truncates `<name>`,
  writes the header and then raises ZeroDivisionError on the first data row,
  or succeeds when there is no data row. With `n < 0`, Python's `%` keeps the
  rows whose index `i` has `i % n == id`, without any error. The model does
  not capture those partial writes or negative counts. Counts come straight
  from the environment, so such a count can reach `splitFile`.
- A file that `splitFile` rewrote is modelled as its `write()` chunks, one
  entry per kept row. Reading it again (a later entry naming the same file)
  would see each kept row as two lines, the row and a blank line; the model
  does not re-split the chunks into lines.
- A crash in the middle of a split, and the half-written file it would
  leave, is not modelled. The file system is a map updated step by step.
- `Numerals.ParseInt` accepts only an optional sign followed by ASCII digits.
  Python's `int()` also allows surrounding whitespace, underscores between
  digits and non-ASCII digits.
- The exact shell text of the commands is left out: whitespace, line
  continuations, quoting of the location, and the JVM arguments and psutil
  clause. A command is a list of steps. `cd` does not change anything in the
  model's environment.
- `frameOutFileName` is not modelled: `MoveOutput` keeps only the frame
  number. As written it adds an int to a str (localizedJmeterProcessor.py:42),
  which raises a TypeError.
- `FrameProcessor.FrameCmd`: models the command `frameCmd` would build if
  localizedJmeterProcessor.py:42 were fixed. As written, `frameCmd` raises
  that TypeError at line 49 and returns no command, so no frame of this
  processor runs the split script. An `instance_begin_count` given as a str
  would instead raise at line 67.
- `installerCmd`, `_get_copy_jars_cmd`, `_get_update_properties_cmd` and
  `_get_update_localization_properties_cmd` are left out. They are
  installation plumbing that depends on the file system.
- `test_properties` is stored by the constructor but never read by the
  modelled methods.
- The batch runner and `runGlobalJmeter.py` are not part of this model. That
  includes argument parsing, worker-count arithmetic in floating point,
  dispatch and report generation. `loadLocalDeviceProperties.py` is not part
  of this model either.
- `Partition.SelectAsWritten`: when the divisor of the `index` update is
  zero, the row already written before the failure is not kept in the
  result. Only the error is returned.
