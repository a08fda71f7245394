# Student records service: record handlers and averaging job

A Dafny model of the core of a small Flask service that keeps student records
(`Rollno`, `name`, and the scores `english`, `maths`, `science`) in one CSV
file. The model covers two parts:

- **The record handlers** (module `RecordStore`, `records.dfy`): create, read,
  update and delete. Each handler reads every row, changes the list in memory
  and writes the whole list back. In the model the rows read are a
  `seq<map<string, string>>` parameter. The list to be written is the `Ok`
  value of a `Result`. An `Err` result means the file is not written, except
  create's `WrittenWithoutRollno`, which carries the list written before the
  handler fails.
- **The averaging job** (`averages.dfy`, `partition.dfy`, `aggregation.dfy`,
  `worker_merge.dfy`):
  - `student_average` turns each row into `{Rollno, name, average}`. It stops
    at the first row it cannot process.
  - `average_scores` first refuses an empty file. It then cuts the rows into
    `max(n // 10, 1)`-sized slices and puts them on a queue. Ten worker threads
    drain the queue. The handler refuses an empty merged result.

The number parser (Python's `float`) is a function parameter, `parse: string ->
Option<real>`. `None` stands for a `ValueError`. The average is the exact mean
of the three parsed scores.

The averaging job is modelled twice:

- **As written** (module `WorkerMerge`): `WorkerMerge.Extended` is the
  worker's `results.extend`, `WorkerMerge.MergedAsWritten` the workers'
  loop, and `WorkerMerge.AverageScoresAsWritten` the handler. A chunk whose
  student_average call fails adds the characters of its error message, and
  the handler still answers with success (see Findings).
- **As intended** (module `Aggregation`, the corrected half of the Findings
  row): `Aggregation.Drained`, `Aggregation.DrainQueue` and
  `Aggregation.AverageScores` stop at the first failing chunk and report its
  error. `Aggregation.MergeOrderIrrelevant` shows that the merge order does
  not matter there. Whatever order the chunks are appended in under the lock,
  the run succeeds or fails alike. On success it holds the same multiset of
  entries.

In both, the worker threads are one sequential drain in queue order.

Points of the source's behaviour that the model follows as written:

- The worker count is the literal `10` in `average_scores`. The configured
  `thread_size` is shadowed and never used.
- An empty file is an error ("No records found", 404), not an empty result.
- A row that fails to parse does not abort the run (see Findings).
- When every row has all its cells, the "No results computed" guard can never
  fire. `Aggregation.AverageScores` and `WorkerMerge.AverageScoresAsWritten`
  prove this for the model: every chunk is non-empty and adds at least one
  element to the results. A short CSV row is the exception (see the
  `TypeError` line under "Left out"): it can kill workers before they add
  anything.
- `read_record` reports a missing Rollno with an error body but HTTP status
  200. Only update and delete answer 404.

## Model

| member | source | states |
|---|---|---|
| RecordStore.FindFirst | app.py:82-85 | the scan's answer: `None` exactly when no row has the Rollno; otherwise an index of a row with the Rollno before which no row has it |
| RecordStore.Create | app.py:101-109 | when the form has a Rollno: rejected with `AlreadyExists` exactly when a stored row already has it. A form without a Rollno always fails: on a non-empty file the duplicate test raises `KeyError` before anything is written (`MissingRollno`). On an empty file `any` never reads `data["Rollno"]`, so the row is written and the log line raises (`WrittenWithoutRollno([data])`, the list written). On success the new list is the old list followed by the new row |
| RecordStore.CreateKeepsUnique | app.py:102-107 | a successful create keeps every Rollno in the file distinct |
| RecordStore.ReadAfterCreate | app.py:102-106 | after a successful create, reading the new Rollno returns exactly the new row |
| RecordStore.Read | app.py:81-87 | the loop with early return answers what `Lookup` specifies: the first row with the Rollno, else `NotFound` |
| RecordStore.LookupFindsFirst | app.py:82-87 | read fails exactly when no row has the Rollno, and the error is `NotFound`. When some row has it, read returns the first such row |
| RecordStore.LookupUnique | app.py:82-85 | in a file with distinct Rollnos, every row is found by its own Rollno |
| RecordStore.FilterFields | app.py:159-164 | every key kept is one of `Rollno, name, english, maths, science` with the request's value. Every allowed key of the request is kept |
| RecordStore.Update | app.py:156-178 | the filter loop followed by the scan with `break` writes what `Updated` specifies |
| RecordStore.UpdateChangesFirstMatchOnly | app.py:166-174 | fails with `NotFound` exactly when no row has the Rollno. Otherwise: the length is unchanged; only the first matching row changes; in it each allowed request field replaces the old value and every other column keeps its value |
| RecordStore.UpdateWithNoValidFieldsIsIdentity | app.py:161-170 | a request naming no valid column writes the list back unchanged |
| RecordStore.UpdateKeepsUnique | app.py:159-170 | Rollnos stay distinct when the request keeps the row's Rollno or moves it to one no row has |
| RecordStore.UpdateMayDuplicateRollno | app.py:159-170 | nothing stops an update from giving a row another row's Rollno: two distinct rows become duplicates |
| RecordStore.Remaining | app.py:222 | the comprehension's result: no longer than the input, and it holds exactly the rows of the input whose Rollno differs |
| RecordStore.RemainingUnchangedIff | app.py:222-226 | the comprehension leaves the list equal to the original exactly when no row has the Rollno |
| RecordStore.RemainingKeepsOthers | app.py:222 | rows with the Rollno all disappear. Every other row keeps its number of occurrences |
| RecordStore.RemainingKeepsOrder | app.py:222 | the comprehension distributes over concatenation, so the kept rows keep their relative order |
| RecordStore.Delete | app.py:221-230 | `NotFound` exactly when no row has the Rollno. Otherwise the rows without that Rollno, in order |
| RecordStore.DeleteTwiceNotFound | app.py:222-226 | after a successful delete no row has the Rollno. Deleting again is `NotFound`, and so is reading it |
| RecordStore.DeleteKeepsUnique | app.py:222-228 | deleting keeps the remaining Rollnos distinct |
| StudentAverages.RecordAverage | app.py:246-258 | a row yields an entry exactly when its three scores are present and parse and it has a Rollno and a name. The entry copies the Rollno and name, and its average times 3 is the sum of the scores. A row without `english` fails on that column first |
| StudentAverages.StudentAverage | app.py:237-259 | the loop with early exit returns what `AveragesOf` specifies |
| StudentAverages.AveragesOfSucceedsIff | app.py:244-259 | student_average returns a list exactly when every row can be averaged |
| StudentAverages.AveragesOfOnePerRow | app.py:244-255 | on success: one entry per row, in row order, each the row's own average (so Rollno and name are copied) |
| StudentAverages.AveragesOfFirstFailure | app.py:256-258 | on failure: the error names the first failing row and the exception it raised, and no list is returned |
| StudentAverages.AveragesOfAppend | app.py:244-259 | processing two lists in turn equals processing their concatenation. This is the basis for chunking not changing the result |
| Partition.ChunkSize | app.py:291-292 | the size is at least 1. Below ten rows it is 1. Otherwise it is the quotient of the row count by 10 |
| Partition.FillQueue | app.py:290-295 | the slicing loop enqueues exactly `Chunks(records, ChunkSize(n))` in order |
| Partition.ChunksRoundTrip | app.py:294-295 | the chunks, concatenated in queue order, are the original list |
| Partition.ChunksShape | app.py:294-295 | every chunk is non-empty and at most `size` long. All but the last are exactly `size` long |
| Partition.ChunksCount | app.py:294-295 | there are `ceil(n / size)` chunks |
| Partition.QueueLength | app.py:291-295 | with ten workers: below ten rows the queue holds one chunk per row. Otherwise it holds between 10 and 19 chunks |
| Aggregation.DrainedIsWhole | app.py:270-275 | intended merge (corrected half of the Findings row): draining a queue that aborts on the first failing chunk gives what student_average gives on all its rows taken together |
| Aggregation.DrainQueue | app.py:270-275 | intended merge (corrected half of the Findings row): the worker loop (take a chunk, average it, merge it) returns what `Drained` specifies. Unlike the source, the first failing chunk aborts the run |
| Aggregation.AverageScores | app.py:279-314 | intended handler (corrected half of the Findings row): "No records found" exactly when the file is empty. "No results computed" never. Otherwise the outcome is that of student_average on the whole list: the averages in row order, or the first failing row. The source as written is `WorkerMerge.AverageScoresAsWritten` |
| Aggregation.DrainedChunksOnePerRow | app.py:290-307 | intended merge: whatever the chunk size, a successful drain has one entry per row, in row order, with that row's Rollno and name |
| Aggregation.MergeOrderIrrelevant | app.py:272-274 | intended merge: merging chunks in any order gives the same success or failure and, on success, the same multiset of entries |
| WorkerMerge.ErrorText | app.py:258 | student_average's error message is never empty |
| WorkerMerge.FailureReportedAsSuccess | app.py:272-274 | take a file whose only row has no `english`: student_average fails, yet the handler as written answers with a success made only of the message's characters |
| WorkerMerge.BlankScoreReportedAsSuccess | app.py:272-274 | a file whose only row has blank score cells, which the number parser rejects at app.py:247: student_average fails on `english`, yet the handler as written answers with a success made only of the message's characters |
| WorkerMerge.Extended | app.py:274 | `results.extend` as written: a list of averages adds one entry per average, in order. An error message adds exactly its characters, in order, one element each |
| WorkerMerge.MergedAsWritten | app.py:270-275 | the workers' loop as written: when every chunk is non-empty, the results list has at least one element per chunk, whether the chunk succeeds or fails |
| WorkerMerge.MergedKeepsSucceededChunks | app.py:270-275 | a failing chunk loses only its own averages: the averages in the results list as written are, in queue order, exactly those of the chunks whose student_average call succeeds |
| WorkerMerge.AverageScoresAsWritten | app.py:279-314 | the handler as written: it fails exactly when the file is empty, and then with "No records found". Every non-empty file gets a success, with at least one element per chunk, so "No results computed" is never returned |
| WorkerMerge.MergedAgreesWhenAllParse | app.py:270-275 | when every chunk succeeds, the merge as written holds the drain's averages, entry for entry |
| WorkerMerge.AsWrittenAgreesWhenAllParse | app.py:286-314 | on a file whose every row can be averaged, the handler as written and `Aggregation.AverageScores` return the same averages |

## Findings

| source | as written | input that shows it | evidently intended | confidence | as-written member | corrected member |
|---|---|---|---|---|---|---|
| app.py:272-274 | `worker` passes student_average's return value to `results.extend`. When that value is the error string, its characters are appended one by one. The run carries on and the handler answers with success | a file whose only row has a blank `english` cell, as a create form with an empty english field produces (`float("")` raises `ValueError`), or a file without an `english` column: the response lists the characters of "Error processing record …" instead of reporting an error | the first row that cannot be processed aborts the run with that error, and no partial result is returned | high (not executed) | WorkerMerge.FailureReportedAsSuccess | Aggregation.AverageScores |

## Left out

- HTTP routing, templates, request and form parsing, JSON responses and status codes. These are web plumbing. The page handlers that call the update and delete endpoints over HTTP are clients, not core.
- CSV file I/O (`read_csv`, `write_csv`). Storage is the list passed in and the list returned. The model leaves out these storage behaviours:
  - a missing file makes `read_csv` return a response object instead of rows;
  - `csv.DictWriter` fills columns a row lacks with `""`;
  - `csv.DictWriter` raises on a column outside the header after the file has already been truncated;
  - `csv.DictReader` gives `None` for a short row's missing cells. `float(None)` then raises a `TypeError`, which student_average does not catch. The worker thread running that chunk dies before `results.extend`. This has two consequences the model does not capture:
    - if every chunk that gets processed raises this way, `results` stays empty and the handler answers "No results computed" (500);
    - once all ten workers have died, the chunks still on the queue are never processed (at most nine: the queue holds at most 19 chunks and each dead worker took one).
- RecordStore.Read, RecordStore.Update, RecordStore.Delete, RecordStore.Create: each requires `Keyed` (every stored row has a `Rollno`), as every row of the CSV reader does. On a row without one the source raises `KeyError` (a 500) when its scan reaches such a row: delete's comprehension always does, while read, update and create's duplicate test stop at the first match. A row without a `Rollno` after that point raises nothing, and update then writes it back with `Rollno` set to `""`. The model does not follow these paths.
- RecordStore.Update: the request body is modelled as a string-to-string map. A JSON body that is not an object makes the source fail with a 500, which is not modelled.
- StudentAverages.RecordAverage: `float` is the parameter `parse`. The average is the exact mean; `round(..., 2)` on binary floating point is not modelled.
- WorkerMerge.ErrorText: only the message's fixed prefix is modelled. Python's rendering of the row and the exception is the parameter `describe`.
- The worker threads, queue, lock and `join`. The drain is one sequential loop in queue order, and only whole-chunk merge orders are covered (`Aggregation.MergeOrderIrrelevant`). Other interleavings are not modelled. Neither is the race in which two workers both see a non-empty queue and one then blocks forever in `q.get()`.
- Configuration loading and logging at start-up. The configured `thread_size` and `queue_size` are never used by the averaging job.
