/**
 * The merge step of the averaging workers as the source writes it. A worker
 * passes whatever student_average returned to `results.extend`: a list of
 * averages adds its entries, but the error message (a string) adds its
 * characters one by one. A failing row therefore does not abort the run: the
 * handler answers with a success whose list mixes characters of the message
 * with the other chunks' averages, and only the failing chunk's averages are
 * lost. Aggregation.AverageScores models the intended abort instead.
 */
module WorkerMerge {
  import opened Wrappers
  import opened RecordStore
  import opened StudentAverages
  import opened Partition
  import opened Aggregation

  /** An element of the shared results list. */
  datatype Entry = Computed(avg: Average) | Spliced(c: char)

  /** How the message renders the row and the exception (Python's formatting, not modelled). */
  type Describe = ProcessingError -> string

  const ErrorPrefix: string := "Error processing record "

  /** student_average's error message. */
  function ErrorText(e: ProcessingError, describe: Describe): (text: string)
    ensures |text| > 0
  {
    ErrorPrefix + describe(e)
  }

  function AsEntries(xs: seq<Average>): (es: seq<Entry>)
    ensures |es| == |xs|
    ensures forall i :: 0 <= i < |xs| ==> es[i] == Computed(xs[i])
  {
    if xs == [] then [] else [Computed(xs[0])] + AsEntries(xs[1..])
  }

  function AsChars(text: string): (es: seq<Entry>)
    ensures |es| == |text|
    ensures forall i :: 0 <= i < |text| ==> es[i] == Spliced(text[i])
  {
    if text == [] then [] else [Spliced(text[0])] + AsChars(text[1..])
  }

  /**
   * `results.extend(chunk_results)`: a list of averages adds one entry per
   * average, in order; the error message adds its characters, at least one.
   */
  function Extended(chunkResults: Result<seq<Average>, ProcessingError>, describe: Describe): (es: seq<Entry>)
    ensures chunkResults.Ok? ==> |es| == |chunkResults.value|
    ensures chunkResults.Ok? ==> forall i :: 0 <= i < |es| ==> es[i] == Computed(chunkResults.value[i])
    ensures chunkResults.Err? ==> |es| == |ErrorText(chunkResults.error, describe)|
    ensures chunkResults.Err? ==>
              forall i :: 0 <= i < |es| ==> es[i] == Spliced(ErrorText(chunkResults.error, describe)[i])
  {
    match chunkResults
    case Ok(xs) => AsEntries(xs)
    case Err(e) => AsChars(ErrorText(e, describe))
  }

  /**
   * The shared results list after the workers drain the queue in queue
   * order: every non-empty chunk adds at least one element, whether its
   * student_average call succeeds or fails.
   */
  function MergedAsWritten(queue: seq<seq<Record>>, parse: Parser, describe: Describe): (merged: seq<Entry>)
    ensures (forall k :: 0 <= k < |queue| ==> queue[k] != []) ==> |merged| >= |queue|
    decreases |queue|
  {
    if queue == [] then []
    else
      AveragesOfOnePerRow(queue[0], parse);
      Extended(AveragesOf(queue[0], parse), describe) + MergedAsWritten(queue[1..], parse, describe)
  }

  /**
   * average_scores with the merge as written: only the empty file is
   * refused; every other file gets a success, whether or not its rows can be
   * averaged, so the "No results computed" guard never fires either.
   */
  function AverageScoresAsWritten(records: seq<Record>, parse: Parser, describe: Describe): (r: Result<seq<Entry>, AverageFailure>)
    ensures r.Err? <==> records == []
    ensures r.Err? ==> r.error == NoRecordsFound
    ensures r.Ok? ==> |r.value| >= |Chunks(records, ChunkSize(|records|))|
  {
    if records == [] then Err(NoRecordsFound)
    else
      var queue := Chunks(records, ChunkSize(|records|));
      ChunksShape(records, ChunkSize(|records|));
      var merged := MergedAsWritten(queue, parse, describe);
      if merged == [] then Err(NoResultsComputed) else Ok(merged)
  }

  /**
   * A file whose one row has no english score: student_average fails on it,
   * yet the handler as written answers with a success made only of the
   * characters of the error message.
   */
  lemma FailureReportedAsSuccess(parse: Parser, describe: Describe)
    ensures var records := [map[RollnoField := "1", NameField := "A"]];
            && AveragesOf(records, parse) == Err(ProcessingError(records[0], MissingField("english")))
            && AverageScoresAsWritten(records, parse, describe).Ok?
            && |AverageScoresAsWritten(records, parse, describe).value| > 0
            && forall i :: 0 <= i < |AverageScoresAsWritten(records, parse, describe).value| ==>
                 AverageScoresAsWritten(records, parse, describe).value[i].Spliced?
  {
    var records := [map[RollnoField := "1", NameField := "A"]];
    var e := ProcessingError(records[0], MissingField("english"));
    assert AveragesOf(records, parse) == Err(e);
    assert ChunkSize(1) == 1;
    var cs := Chunks(records, 1);
    assert records[1..] == [] && records[..1] == records;
    assert Chunks(records[1..], 1) == [];
    assert cs == [records];
    assert MergedAsWritten(cs, parse, describe) == AsChars(ErrorText(e, describe)) + [];
  }

  /**
   * The usual way in: a row whose score cells are blank, as a create form
   * with empty score fields writes it. The parser rejects the blank english
   * cell, yet the handler as written answers with a success made only of the
   * characters of the error message.
   */
  lemma BlankScoreReportedAsSuccess(parse: Parser, describe: Describe)
    requires parse("") == None
    ensures var records := [map[RollnoField := "1", NameField := "A", "english" := "", "maths" := "", "science" := ""]];
            && AveragesOf(records, parse) == Err(ProcessingError(records[0], NotANumber("english", "")))
            && AverageScoresAsWritten(records, parse, describe).Ok?
            && |AverageScoresAsWritten(records, parse, describe).value| > 0
            && forall i :: 0 <= i < |AverageScoresAsWritten(records, parse, describe).value| ==>
                 AverageScoresAsWritten(records, parse, describe).value[i].Spliced?
  {
    var records := [map[RollnoField := "1", NameField := "A", "english" := "", "maths" := "", "science" := ""]];
    var e := ProcessingError(records[0], NotANumber("english", ""));
    assert AveragesOf(records, parse) == Err(e);
    assert ChunkSize(1) == 1;
    var cs := Chunks(records, 1);
    assert records[1..] == [] && records[..1] == records;
    assert Chunks(records[1..], 1) == [];
    assert cs == [records];
    assert MergedAsWritten(cs, parse, describe) == AsChars(ErrorText(e, describe)) + [];
  }

  /** The averages among the results list's elements, in list order. */
  function ComputedOf(es: seq<Entry>): seq<Average> {
    if es == [] then []
    else if es[0].Computed? then [es[0].avg] + ComputedOf(es[1..])
    else ComputedOf(es[1..])
  }

  /** The averages of the chunks whose student_average call succeeds, in queue order. */
  function SucceededAverages(queue: seq<seq<Record>>, parse: Parser): seq<Average>
    decreases |queue|
  {
    if queue == [] then []
    else match AveragesOf(queue[0], parse)
      case Ok(xs) => xs + SucceededAverages(queue[1..], parse)
      case Err(_) => SucceededAverages(queue[1..], parse)
  }

  lemma {:induction false} ComputedOfAppend(a: seq<Entry>, b: seq<Entry>)
    ensures ComputedOf(a + b) == ComputedOf(a) + ComputedOf(b)
    decreases |a|
  {
    if a == [] {
      assert a + b == b;
    } else {
      assert (a + b)[1..] == a[1..] + b;
      ComputedOfAppend(a[1..], b);
    }
  }

  lemma {:induction false} ComputedOfAsEntries(xs: seq<Average>)
    ensures ComputedOf(AsEntries(xs)) == xs
    decreases |xs|
  {
    if xs != [] {
      ComputedOfAsEntries(xs[1..]);
      assert AsEntries(xs)[1..] == AsEntries(xs[1..]);
    }
  }

  lemma {:induction false} ComputedOfAsChars(text: string)
    ensures ComputedOf(AsChars(text)) == []
    decreases |text|
  {
    if text != [] {
      ComputedOfAsChars(text[1..]);
      assert AsChars(text)[1..] == AsChars(text[1..]);
    }
  }

  /**
   * A failing chunk loses only its own averages: the averages in the results
   * list as written are, in queue order, those of every chunk that succeeds.
   */
  lemma {:induction false} MergedKeepsSucceededChunks(queue: seq<seq<Record>>, parse: Parser, describe: Describe)
    ensures ComputedOf(MergedAsWritten(queue, parse, describe)) == SucceededAverages(queue, parse)
    decreases |queue|
  {
    if queue != [] {
      MergedKeepsSucceededChunks(queue[1..], parse, describe);
      ComputedOfAppend(Extended(AveragesOf(queue[0], parse), describe), MergedAsWritten(queue[1..], parse, describe));
      match AveragesOf(queue[0], parse)
      case Ok(xs) => ComputedOfAsEntries(xs);
      case Err(e) => ComputedOfAsChars(ErrorText(e, describe));
    }
  }

  lemma AsEntriesAppend(a: seq<Average>, b: seq<Average>)
    ensures AsEntries(a + b) == AsEntries(a) + AsEntries(b)
  {
  }

  /** When every chunk succeeds the merge as written is the corrected drain, entry for entry. */
  lemma {:induction false} MergedAgreesWhenAllParse(queue: seq<seq<Record>>, parse: Parser, describe: Describe)
    requires Drained(queue, parse).Ok?
    ensures MergedAsWritten(queue, parse, describe) == AsEntries(Drained(queue, parse).value)
    decreases |queue|
  {
    if queue != [] {
      MergedAgreesWhenAllParse(queue[1..], parse, describe);
      AsEntriesAppend(AveragesOf(queue[0], parse).value, Drained(queue[1..], parse).value);
    }
  }

  /** On a file whose every row can be averaged, the handler as written and the corrected one agree. */
  lemma AsWrittenAgreesWhenAllParse(records: seq<Record>, parse: Parser, describe: Describe)
    requires records != [] && AveragesOf(records, parse).Ok?
    ensures AverageScoresAsWritten(records, parse, describe) == Ok(AsEntries(AveragesOf(records, parse).value))
  {
    var queue := Chunks(records, ChunkSize(|records|));
    DrainedIsWhole(queue, parse);
    ChunksRoundTrip(records, ChunkSize(|records|));
    MergedAgreesWhenAllParse(queue, parse, describe);
    AveragesOfOnePerRow(records, parse);
  }
}
