/**
 * student_average: the per-row computation of the averaging job. Each row's
 * three scores are parsed and averaged into an entry carrying the row's Rollno
 * and name; the first row that cannot be processed ends the whole call with an
 * error naming that row, and no partial list is returned.
 *
 * The number parser (Python's `float`) is a parameter, and the average is the
 * exact mean of the three parsed scores.
 */
module StudentAverages {
  import opened Wrappers
  import opened RecordStore

  /** Text to number, `None` where the parser raises ValueError. */
  type Parser = string -> Option<real>

  const NameField: string := "name"

  /** The score columns, in the order student_average reads them. */
  const ScoreFields: seq<string> := ["english", "maths", "science"]

  /** One entry of the result: the row's Rollno and name and its mean score. */
  datatype Average = Average(rollno: string, name: string, average: real)

  /** Why a row could not be averaged: a missing column (KeyError) or an unparsable score (ValueError). */
  datatype FieldError = MissingField(field: string) | NotANumber(field: string, text: string)

  /** student_average's error: the offending row and the exception it raised. */
  datatype ProcessingError = ProcessingError(record: Record, reason: FieldError)

  /** `xs` followed by the list in `r`, or `r`'s error. */
  function Prefixed<T, E>(xs: seq<T>, r: Result<seq<T>, E>): Result<seq<T>, E> {
    match r
    case Ok(ys) => Ok(xs + ys)
    case Err(e) => Err(e)
  }

  lemma PrefixedNil<T, E>(r: Result<seq<T>, E>)
    ensures Prefixed([], r) == r
  {
    if r.Ok? {
      assert [] + r.value == r.value;
    }
  }

  lemma PrefixedTwice<T, E>(xs: seq<T>, ys: seq<T>, r: Result<seq<T>, E>)
    ensures Prefixed(xs, Prefixed(ys, r)) == Prefixed(xs + ys, r)
  {
    if r.Ok? {
      assert xs + (ys + r.value) == (xs + ys) + r.value;
    }
  }

  /** One score: the column looked up, then parsed. */
  function Score(r: Record, field: string, parse: Parser): Result<real, FieldError> {
    if field !in r then Err(MissingField(field))
    else match parse(r[field])
      case None => Err(NotANumber(field, r[field]))
      case Some(x) => Ok(x)
  }

  /** The row holds three parsable scores, a Rollno and a name. */
  predicate Averageable(r: Record, parse: Parser) {
    && (forall f :: f in ScoreFields ==> f in r && parse(r[f]).Some?)
    && RollnoField in r && NameField in r
  }

  /**
   * The body of student_average's loop for one row: english, maths and
   * science are looked up and parsed in that order, then Rollno and name are
   * copied; the first step that raises decides the error.
   */
  function RecordAverage(r: Record, parse: Parser): (res: Result<Average, FieldError>)
    ensures res.Ok? <==> Averageable(r, parse)
    ensures res.Ok? ==> && res.value.rollno == r[RollnoField]
                        && res.value.name == r[NameField]
                        && res.value.average * 3.0 == parse(r["english"]).value
                                                      + parse(r["maths"]).value
                                                      + parse(r["science"]).value
    ensures "english" !in r ==> res == Err(MissingField("english"))
  {
    var english :- Score(r, "english", parse);
    var maths :- Score(r, "maths", parse);
    var science :- Score(r, "science", parse);
    if RollnoField !in r then Err(MissingField(RollnoField))
    else if NameField !in r then Err(MissingField(NameField))
    else Ok(Average(r[RollnoField], r[NameField], (english + maths + science) / 3.0))
  }

  /** What student_average returns for a list of rows. */
  function AveragesOf(records: seq<Record>, parse: Parser): Result<seq<Average>, ProcessingError>
    decreases |records|
  {
    if records == [] then Ok([])
    else match RecordAverage(records[0], parse)
      case Err(reason) => Err(ProcessingError(records[0], reason))
      case Ok(a) => Prefixed([a], AveragesOf(records[1..], parse))
  }

  /** student_average's loop: append one entry per row, return the error of the first row that fails. */
  method StudentAverage(records: seq<Record>, parse: Parser) returns (r: Result<seq<Average>, ProcessingError>)
    ensures r == AveragesOf(records, parse)
  {
    var averages := [];
    var i := 0;
    assert records[i..] == records;
    PrefixedNil<Average, ProcessingError>(AveragesOf(records, parse));
    while i < |records|
      invariant 0 <= i <= |records|
      invariant AveragesOf(records, parse) == Prefixed(averages, AveragesOf(records[i..], parse))
    {
      assert records[i..][1..] == records[i + 1..];
      match RecordAverage(records[i], parse) {
        case Err(reason) =>
          return Err(ProcessingError(records[i], reason));
        case Ok(a) =>
          PrefixedTwice(averages, [a], AveragesOf(records[i + 1..], parse));
          averages := averages + [a];
      }
      i := i + 1;
    }
    assert records[i..] == [];
    assert averages + [] == averages;
    return Ok(averages);
  }

  /** The call succeeds exactly when every row can be averaged. */
  lemma {:induction false} AveragesOfSucceedsIff(records: seq<Record>, parse: Parser)
    ensures AveragesOf(records, parse).Ok? <==>
              forall i :: 0 <= i < |records| ==> RecordAverage(records[i], parse).Ok?
    decreases |records|
  {
    if records != [] {
      AveragesOfSucceedsIff(records[1..], parse);
      assert forall i :: 1 <= i < |records| ==> records[i] == records[1..][i - 1];
    }
  }

  /** On success: one entry per row, in row order, each the row's own average (so Rollno and name copied). */
  lemma {:induction false} AveragesOfOnePerRow(records: seq<Record>, parse: Parser)
    ensures AveragesOf(records, parse).Ok? ==> |AveragesOf(records, parse).value| == |records|
    ensures AveragesOf(records, parse).Ok? ==>
              forall i :: 0 <= i < |records| ==>
                RecordAverage(records[i], parse) == Ok(AveragesOf(records, parse).value[i])
    decreases |records|
  {
    if records != [] && AveragesOf(records, parse).Ok? {
      AveragesOfOnePerRow(records[1..], parse);
      var a := RecordAverage(records[0], parse).value;
      var rest := AveragesOf(records[1..], parse).value;
      assert AveragesOf(records, parse).value == [a] + rest;
      assert forall i :: 1 <= i < |records| ==> records[i] == records[1..][i - 1];
    }
  }

  /** On failure: the error names the first row that cannot be averaged and the reason it raised. */
  lemma {:induction false} AveragesOfFirstFailure(records: seq<Record>, parse: Parser, i: nat)
    requires i < |records| && RecordAverage(records[i], parse).Err?
    requires forall j :: 0 <= j < i ==> RecordAverage(records[j], parse).Ok?
    ensures AveragesOf(records, parse) == Err(ProcessingError(records[i], RecordAverage(records[i], parse).error))
    decreases i
  {
    if i > 0 {
      assert forall j :: 0 <= j < i - 1 ==> records[1..][j] == records[j + 1];
      AveragesOfFirstFailure(records[1..], parse, i - 1);
    }
  }

  /** Running over two lists one after the other is running over their concatenation. */
  lemma {:induction false} AveragesOfAppend(a: seq<Record>, b: seq<Record>, parse: Parser)
    ensures AveragesOf(a + b, parse) ==
              match AveragesOf(a, parse)
              case Err(e) => Err(e)
              case Ok(xs) => Prefixed(xs, AveragesOf(b, parse))
    decreases |a|
  {
    if a == [] {
      assert a + b == b;
      match AveragesOf(b, parse)
      case Ok(ys) => assert [] + ys == ys;
      case Err(_) =>
    } else {
      assert (a + b)[1..] == a[1..] + b;
      assert (a + b)[0] == a[0];
      AveragesOfAppend(a[1..], b, parse);
      match AveragesOf(b, parse)
      case Err(_) =>
      case Ok(ys) =>
        match AveragesOf(a[1..], parse)
        case Err(_) =>
        case Ok(xs) =>
          if RecordAverage(a[0], parse).Ok? {
            var x := RecordAverage(a[0], parse).value;
            assert [x] + (xs + ys) == ([x] + xs) + ys;
          }
    }
  }
}
