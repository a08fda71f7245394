/**
 * average_scores: the averaging job. The handler refuses an empty file,
 * puts the chunks on the work queue, lets the workers drain it and refuses an
 * empty merged list. The worker threads are modelled as one sequential drain
 * in queue order. This module models the intended merge: a chunk whose
 * student_average call fails aborts the run with that error. The source's
 * merge splices the error message into the results instead; that merge, as
 * written, is modelled in WorkerMerge.
 */
module Aggregation {
  import opened Wrappers
  import opened RecordStore
  import opened StudentAverages
  import opened Partition

  /** The handler's outcomes other than the list of averages. */
  datatype AverageFailure =
    | NoRecordsFound                 // "No records found", 404
    | NoResultsComputed              // "No results computed", 500
    | Processing(e: ProcessingError) // a row could not be averaged

  /** Draining the queue chunk by chunk, each chunk's entries appended after the previous ones. */
  function Drained(queue: seq<seq<Record>>, parse: Parser): Result<seq<Average>, ProcessingError>
    decreases |queue|
  {
    if queue == [] then Ok([])
    else match AveragesOf(queue[0], parse)
      case Err(e) => Err(e)
      case Ok(xs) => Prefixed(xs, Drained(queue[1..], parse))
  }

  /** Draining a queue gives what student_average gives on the queue's rows taken together. */
  lemma {:induction false} DrainedIsWhole(queue: seq<seq<Record>>, parse: Parser)
    ensures Drained(queue, parse) == AveragesOf(Flatten(queue), parse)
    decreases |queue|
  {
    if queue != [] {
      DrainedIsWhole(queue[1..], parse);
      AveragesOfAppend(queue[0], Flatten(queue[1..]), parse);
    }
  }

  /** The workers' loop, run by one worker: take a chunk, average it, merge its entries. */
  method DrainQueue(queue: seq<seq<Record>>, parse: Parser) returns (r: Result<seq<Average>, ProcessingError>)
    ensures r == Drained(queue, parse)
  {
    var results := [];
    var k := 0;
    assert queue[k..] == queue;
    PrefixedNil<Average, ProcessingError>(Drained(queue, parse));
    while k < |queue|
      invariant 0 <= k <= |queue|
      invariant Drained(queue, parse) == Prefixed(results, Drained(queue[k..], parse))
    {
      assert queue[k..][1..] == queue[k + 1..];
      var chunkResults := StudentAverage(queue[k], parse);
      match chunkResults {
        case Err(e) =>
          return Err(e);
        case Ok(xs) =>
          PrefixedTwice(results, xs, Drained(queue[k + 1..], parse));
          results := results + xs;
      }
      k := k + 1;
    }
    assert queue[k..] == [];
    assert results + [] == results;
    return Ok(results);
  }

  /**
   * average_scores: an empty file is refused before anything is queued; a
   * non-empty one yields exactly what student_average yields on the whole
   * list, so the "No results computed" guard never fires.
   */
  method AverageScores(records: seq<Record>, parse: Parser) returns (r: Result<seq<Average>, AverageFailure>)
    ensures r == Err(NoRecordsFound) <==> records == []
    ensures r != Err(NoResultsComputed)
    ensures records != [] ==> (r.Ok? <==> AveragesOf(records, parse).Ok?)
    ensures r.Ok? ==> r.value == AveragesOf(records, parse).value
    ensures records != [] && r.Err? ==> r.error == Processing(AveragesOf(records, parse).error)
  {
    if records == [] {
      return Err(NoRecordsFound);
    }
    var size, queue := FillQueue(records);
    var results := DrainQueue(queue, parse);
    DrainedIsWhole(queue, parse);
    ChunksRoundTrip(records, size);
    if results.Err? {
      return Err(Processing(results.error));
    }
    AveragesOfOnePerRow(records, parse);
    if results.value == [] {
      return Err(NoResultsComputed);
    }
    return Ok(results.value);
  }

  /** Result entries are the input rows' averages in input order, whatever the chunking. */
  lemma DrainedChunksOnePerRow(records: seq<Record>, parse: Parser, size: nat)
    requires 1 <= size
    requires Drained(Chunks(records, size), parse).Ok?
    ensures var out := Drained(Chunks(records, size), parse).value;
            && |out| == |records|
            && forall i :: 0 <= i < |records| ==>
                 && RecordAverage(records[i], parse) == Ok(out[i])
                 && out[i].rollno == records[i][RollnoField]
                 && out[i].name == records[i][NameField]
  {
    DrainedIsWhole(Chunks(records, size), parse);
    ChunksRoundTrip(records, size);
    AveragesOfOnePerRow(records, parse);
  }

  /** Draining two queues one after the other. */
  lemma DrainedAppend(a: seq<seq<Record>>, b: seq<seq<Record>>, parse: Parser)
    ensures Drained(a + b, parse) ==
              match Drained(a, parse)
              case Err(e) => Err(e)
              case Ok(xs) => Prefixed(xs, Drained(b, parse))
  {
    DrainedIsWhole(a + b, parse);
    DrainedIsWhole(a, parse);
    DrainedIsWhole(b, parse);
    FlattenAppend(a, b);
    AveragesOfAppend(Flatten(a), Flatten(b), parse);
  }

  /** Two runs that succeed or fail alike and, on success, hold the same entries in some order. */
  predicate SameOutcome(r1: Result<seq<Average>, ProcessingError>, r2: Result<seq<Average>, ProcessingError>) {
    && (r1.Ok? <==> r2.Ok?)
    && (r1.Ok? ==> multiset(r1.value) == multiset(r2.value))
  }

  lemma DrainedCons(c: seq<Record>, rest: seq<seq<Record>>, parse: Parser)
    ensures Drained([c] + rest, parse) ==
              if AveragesOf(c, parse).Err? then Err(AveragesOf(c, parse).error)
              else Prefixed(AveragesOf(c, parse).value, Drained(rest, parse))
  {
  }

  lemma SameOutcomeCons(c: seq<Record>, a: seq<seq<Record>>, b: seq<seq<Record>>, parse: Parser)
    requires SameOutcome(Drained(a, parse), Drained(b, parse))
    ensures SameOutcome(Drained([c] + a, parse), Drained([c] + b, parse))
  {
  }

  /** Merging one chunk earlier than its place in the queue changes only the order of entries. */
  lemma SameOutcomeMoveFront(before: seq<seq<Record>>, c: seq<Record>, after: seq<seq<Record>>, parse: Parser)
    ensures SameOutcome(Drained(before + ([c] + after), parse), Drained([c] + (before + after), parse))
  {
    DrainedAppend(before, [c] + after, parse);
    DrainedAppend(before, after, parse);
    DrainedCons(c, after, parse);
    DrainedCons(c, before + after, parse);
    if Drained(before + ([c] + after), parse).Ok? {
      var xb := Drained(before, parse).value;
      var xc := AveragesOf(c, parse).value;
      var xa := Drained(after, parse).value;
      assert Drained(before + ([c] + after), parse).value == xb + (xc + xa);
      assert Drained([c] + (before + after), parse).value == xc + (xb + xa);
    }
  }

  lemma MultisetRemoveAt(q: seq<seq<Record>>, p: seq<seq<Record>>, k: nat)
    requires q != [] && multiset(q) == multiset(p) && k < |p| && p[k] == q[0]
    ensures p == p[..k] + ([q[0]] + p[k + 1..])
    ensures multiset(p[..k] + p[k + 1..]) == multiset(q[1..])
  {
    assert p == p[..k] + ([q[0]] + p[k + 1..]);
    assert q == [q[0]] + q[1..];
    assert multiset(p) == multiset(p[..k]) + multiset{q[0]} + multiset(p[k + 1..]);
    assert multiset(q) == multiset{q[0]} + multiset(q[1..]);
    assert multiset(p[..k] + p[k + 1..]) == multiset(p[..k]) + multiset(p[k + 1..]);
    forall x ensures multiset(p[..k] + p[k + 1..])[x] == multiset(q[1..])[x] {
      assert multiset(p)[x] == multiset(q)[x];
    }
  }

  /**
   * The workers take chunks in no fixed order and append each chunk's entries
   * under the lock. Whatever order the chunks are merged in, the run succeeds
   * or fails alike and, on success, yields the same multiset of entries.
   */
  lemma {:induction false} MergeOrderIrrelevant(q: seq<seq<Record>>, p: seq<seq<Record>>, parse: Parser)
    requires multiset(q) == multiset(p)
    ensures Drained(q, parse).Ok? <==> Drained(p, parse).Ok?
    ensures Drained(q, parse).Ok? ==> multiset(Drained(q, parse).value) == multiset(Drained(p, parse).value)
    decreases |q|
  {
    if q == [] {
      assert |p| == |multiset(p)| == 0;
    } else {
      var c := q[0];
      assert c in multiset(p);
      var k :| 0 <= k < |p| && p[k] == c;
      MultisetRemoveAt(q, p, k);
      var before, after := p[..k], p[k + 1..];
      MergeOrderIrrelevant(q[1..], before + after, parse);
      SameOutcomeCons(c, q[1..], before + after, parse);
      assert q == [c] + q[1..];
      SameOutcomeMoveFront(before, c, after, parse);
    }
  }
}
