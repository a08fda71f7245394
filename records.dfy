/**
 * The four record handlers of the student service (create, read, update,
 * delete). Each handler reads the whole student file into a list of rows,
 * works on that list in memory and, on success, writes the whole list back.
 * Here the list read is a parameter and the list to be written is the `Ok`
 * value of the result; an `Err` result means nothing is written, except
 * `WrittenWithoutRollno`, which carries the list create wrote before failing.
 */
module RecordStore {
  import opened Wrappers

  /** One row of the student file: column name to cell text. */
  type Record = map<string, string>

  /** The column that identifies a student. */
  const RollnoField: string := "Rollno"

  /** The columns an update may change; they are also the file's header. */
  const ValidFields: seq<string> := ["Rollno", "name", "english", "maths", "science"]

  datatype StoreError =
    | AlreadyExists(rollno: string)  // create: the Rollno is taken (HTTP 400)
    | NotFound(rollno: string)       // read, update, delete: no row has the Rollno (404 for update and delete)
    | MissingRollno                  // create: the form has no Rollno and the duplicate test reads data["Rollno"]
    | WrittenWithoutRollno(written: seq<Record>)
                                     // create: the form has no Rollno, the file is empty: the row is
                                     // written, then the log line reads data["Rollno"] (HTTP 500)

  /** Every row carries the Rollno column, as every row of the CSV reader does. */
  predicate Keyed(records: seq<Record>) {
    forall i :: 0 <= i < |records| ==> RollnoField in records[i]
  }

  predicate HasRollno(r: Record, rollno: string) {
    RollnoField in r && r[RollnoField] == rollno
  }

  /** Some row has this Rollno: the `any(...)` test of create. */
  predicate AnyHasRollno(records: seq<Record>, rollno: string) {
    exists i :: 0 <= i < |records| && HasRollno(records[i], rollno)
  }

  /** No two rows share a Rollno. */
  predicate UniqueRollnos(records: seq<Record>) {
    && Keyed(records)
    && forall i, j :: 0 <= i < j < |records| ==> records[i][RollnoField] != records[j][RollnoField]
  }

  /** The position of the first row with this Rollno, if any. */
  function FindFirst(records: seq<Record>, rollno: string): (r: Option<nat>)
    ensures r.None? <==> !AnyHasRollno(records, rollno)
    ensures r.Some? ==> r.value < |records| && HasRollno(records[r.value], rollno)
    ensures r.Some? ==> forall j :: 0 <= j < r.value ==> !HasRollno(records[j], rollno)
  {
    if records == [] then None
    else if HasRollno(records[0], rollno) then Some(0)
    else
      var rest := FindFirst(records[1..], rollno);
      if rest.None? then
        assert forall i :: 1 <= i < |records| ==> records[i] == records[1..][i - 1];
        None
      else
        Some(rest.value + 1)
  }

  // ---------------------------------------------------------------- create

  /**
   * create_record: refuse a Rollno that is already taken, otherwise append
   * the submitted row. A form without a Rollno always fails, but not always
   * at the same point: the duplicate test looks up data["Rollno"] only while
   * comparing it with a stored row, so on an empty file the row is appended
   * and written, and only the success log line, which reads data["Rollno"]
   * too, raises.
   */
  function Create(records: seq<Record>, data: Record): (r: Result<seq<Record>, StoreError>)
    requires Keyed(records)
    ensures RollnoField in data ==> (r.Err? <==> AnyHasRollno(records, data[RollnoField]))
    ensures RollnoField in data && r.Err? ==> r.error == AlreadyExists(data[RollnoField])
    ensures RollnoField !in data ==> r.Err?
    ensures RollnoField !in data && records != [] ==> r.error == MissingRollno
    ensures RollnoField !in data && records == [] ==> r.error == WrittenWithoutRollno([data])
    ensures r.Ok? ==> r.value == records + [data]
  {
    if RollnoField !in data then
      if records == [] then Err(WrittenWithoutRollno([data])) else Err(MissingRollno)
    else if AnyHasRollno(records, data[RollnoField]) then
      Err(AlreadyExists(data[RollnoField]))
    else
      Ok(records + [data])
  }

  /** A successful create keeps the Rollnos unique. */
  lemma CreateKeepsUnique(records: seq<Record>, data: Record)
    requires UniqueRollnos(records) && RollnoField in data
    ensures Create(records, data).Ok? ==> UniqueRollnos(Create(records, data).value)
  {
  }

  // ------------------------------------------------------------------ read

  /** What read_record answers: the first row with the Rollno, or not found. */
  function Lookup(records: seq<Record>, rollno: string): (r: Result<Record, StoreError>)
  {
    match FindFirst(records, rollno)
    case None => Err(NotFound(rollno))
    case Some(i) => Ok(records[i])
  }

  /** read_record's scan with early return. */
  method Read(records: seq<Record>, rollno: string) returns (r: Result<Record, StoreError>)
    requires Keyed(records)
    ensures r == Lookup(records, rollno)
  {
    var i := 0;
    while i < |records|
      invariant 0 <= i <= |records|
      invariant forall j :: 0 <= j < i ==> !HasRollno(records[j], rollno)
    {
      if records[i][RollnoField] == rollno {
        return Ok(records[i]);
      }
      i := i + 1;
    }
    return Err(NotFound(rollno));
  }

  /** Read answers not found exactly when no row has the Rollno, and otherwise the first such row. */
  lemma LookupFindsFirst(records: seq<Record>, rollno: string)
    ensures Lookup(records, rollno).Err? <==> !AnyHasRollno(records, rollno)
    ensures Lookup(records, rollno).Err? ==> Lookup(records, rollno).error == NotFound(rollno)
    ensures forall i :: 0 <= i < |records| && HasRollno(records[i], rollno)
                        && (forall j :: 0 <= j < i ==> !HasRollno(records[j], rollno))
                        ==> Lookup(records, rollno) == Ok(records[i])
  {
  }

  /** In a store with unique Rollnos, a row is found by its own Rollno. */
  lemma LookupUnique(records: seq<Record>, i: nat)
    requires UniqueRollnos(records) && i < |records|
    ensures Lookup(records, records[i][RollnoField]) == Ok(records[i])
  {
  }

  /** After a successful create the new row is what read returns for its Rollno. */
  lemma ReadAfterCreate(records: seq<Record>, data: Record)
    requires Keyed(records) && RollnoField in data
    requires Create(records, data).Ok?
    ensures Lookup(Create(records, data).value, data[RollnoField]) == Ok(data)
  {
    var s := records + [data];
    assert HasRollno(s[|records|], data[RollnoField]);
    assert forall j :: 0 <= j < |records| ==> s[j] == records[j];
  }

  // ---------------------------------------------------------------- update

  /** The part of an update request whose keys are valid columns. */
  function Allowed(data: Record): Record {
    map k | k in data && k in ValidFields :: data[k]
  }

  /** update_record's first loop: copy the items of the request whose key is a valid column. */
  method FilterFields(data: Record) returns (filtered: Record)
    ensures forall k :: k in filtered ==> k in ValidFields
    ensures forall k :: k in filtered ==> k in data && filtered[k] == data[k]
    ensures forall k :: k in data && k in ValidFields ==> k in filtered
    ensures filtered == Allowed(data)
  {
    filtered := map[];
    var pending := data.Keys;
    while pending != {}
      invariant pending <= data.Keys
      invariant forall k :: k in filtered <==> k in data && k !in pending && k in ValidFields
      invariant forall k :: k in filtered ==> filtered[k] == data[k]
      decreases pending
    {
      var key :| key in pending;
      if key in ValidFields {
        filtered := filtered[key := data[key]];
      }
      pending := pending - {key};
    }
    assert filtered.Keys == Allowed(data).Keys;
  }

  /** What update_record writes: the first row with the Rollno overwritten by the allowed fields. */
  function Updated(records: seq<Record>, rollno: string, data: Record): (r: Result<seq<Record>, StoreError>)
  {
    match FindFirst(records, rollno)
    case None => Err(NotFound(rollno))
    case Some(i) => Ok(records[i := records[i] + Allowed(data)])
  }

  /** update_record: filter the request, then `record.update` the first matching row and stop. */
  method Update(records: seq<Record>, rollno: string, data: Record) returns (r: Result<seq<Record>, StoreError>)
    requires Keyed(records)
    ensures r == Updated(records, rollno, data)
  {
    var filtered := FilterFields(data);
    var rows := records;
    var updated := false;
    var i := 0;
    while i < |rows|
      invariant 0 <= i <= |rows|
      invariant !updated && rows == records
      invariant forall j :: 0 <= j < i ==> !HasRollno(records[j], rollno)
    {
      if rows[i][RollnoField] == rollno {
        rows := rows[i := rows[i] + filtered];
        updated := true;
        break;
      }
      i := i + 1;
    }
    if !updated {
      return Err(NotFound(rollno));
    }
    LookupFindsFirst(records, rollno);
    return Ok(rows);
  }

  /**
   * Update fails with not found exactly when no row has the Rollno; otherwise
   * it changes the first such row and no other, keeps the length, and in the
   * changed row every allowed field of the request wins over the old value.
   */
  lemma UpdateChangesFirstMatchOnly(records: seq<Record>, rollno: string, data: Record)
    ensures Updated(records, rollno, data).Err? <==> !AnyHasRollno(records, rollno)
    ensures Updated(records, rollno, data).Err? ==> Updated(records, rollno, data).error == NotFound(rollno)
    ensures Updated(records, rollno, data).Ok? ==>
              var s := Updated(records, rollno, data).value;
              && |s| == |records|
              && exists i :: 0 <= i < |records| && HasRollno(records[i], rollno)
                   && (forall j :: 0 <= j < i ==> !HasRollno(records[j], rollno))
                   && (forall j :: 0 <= j < |records| && j != i ==> s[j] == records[j])
                   && s[i].Keys == records[i].Keys + Allowed(data).Keys
                   && (forall k :: k in s[i] ==>
                         s[i][k] == if k in data && k in ValidFields then data[k] else records[i][k])
  {
  }

  /** An update whose request names no valid column writes the list back unchanged. */
  lemma UpdateWithNoValidFieldsIsIdentity(records: seq<Record>, rollno: string, data: Record)
    requires forall k :: k in data ==> k !in ValidFields
    requires AnyHasRollno(records, rollno)
    ensures Updated(records, rollno, data) == Ok(records)
  {
    var i := FindFirst(records, rollno).value;
    assert Allowed(data).Keys == {};
    assert records[i] + Allowed(data) == records[i];
    assert records[i := records[i]] == records;
  }

  /** An update keeps Rollnos unique when it leaves the Rollno alone or moves it to a free one. */
  lemma UpdateKeepsUnique(records: seq<Record>, rollno: string, data: Record)
    requires UniqueRollnos(records)
    requires RollnoField in data ==> data[RollnoField] == rollno || !AnyHasRollno(records, data[RollnoField])
    ensures Updated(records, rollno, data).Ok? ==> UniqueRollnos(Updated(records, rollno, data).value)
  {
  }

  /** Nothing in update stops a request from moving a row onto another row's Rollno. */
  lemma UpdateMayDuplicateRollno()
    ensures var records := [map[RollnoField := "1"], map[RollnoField := "2"]];
            && UniqueRollnos(records)
            && Updated(records, "2", map[RollnoField := "1"]).Ok?
            && !UniqueRollnos(Updated(records, "2", map[RollnoField := "1"]).value)
  {
    var records := [map[RollnoField := "1"], map[RollnoField := "2"]];
    assert HasRollno(records[1], "2");
    assert FindFirst(records, "2") == Some(1);
    var s := Updated(records, "2", map[RollnoField := "1"]).value;
    assert RollnoField in ValidFields;
    assert s[0] == records[0];
    assert s[0][RollnoField] == "1" == s[1][RollnoField];
  }

  // ---------------------------------------------------------------- delete

  /** delete_record's list comprehension: the rows whose Rollno differs, in their order. */
  function Remaining(records: seq<Record>, rollno: string): (r: seq<Record>)
    requires Keyed(records)
    ensures |r| <= |records|
    ensures forall x :: x in r <==> x in records && !HasRollno(x, rollno)
  {
    if records == [] then []
    else
      assert Keyed(records[1..]) by {
        assert forall i :: 1 <= i < |records| ==> records[i] == records[1..][i - 1];
      }
      if records[0][RollnoField] != rollno then [records[0]] + Remaining(records[1..], rollno)
      else Remaining(records[1..], rollno)
  }

  /** The comprehension leaves the list as it was exactly when no row has the Rollno. */
  lemma {:induction false} RemainingUnchangedIff(records: seq<Record>, rollno: string)
    requires Keyed(records)
    ensures Remaining(records, rollno) == records <==> !AnyHasRollno(records, rollno)
    decreases |records|
  {
    if records != [] {
      var tail := records[1..];
      assert Keyed(tail) by {
        assert forall i :: 1 <= i < |records| ==> records[i] == tail[i - 1];
      }
      RemainingUnchangedIff(tail, rollno);
      if HasRollno(records[0], rollno) {
        assert |Remaining(records, rollno)| <= |tail| < |records|;
      } else {
        assert records == [records[0]] + tail;
        assert AnyHasRollno(records, rollno) <==> AnyHasRollno(tail, rollno) by {
          assert forall i :: 1 <= i < |records| ==> records[i] == tail[i - 1];
          assert forall i :: 0 <= i < |tail| ==> tail[i] == records[i + 1];
        }
      }
    }
  }

  /** Rows with the Rollno are dropped, every other row keeps its number of occurrences. */
  lemma {:induction false} RemainingKeepsOthers(records: seq<Record>, rollno: string)
    requires Keyed(records)
    ensures forall x :: multiset(Remaining(records, rollno))[x] ==
                          if HasRollno(x, rollno) then 0 else multiset(records)[x]
    decreases |records|
  {
    if records != [] {
      var tail := records[1..];
      assert Keyed(tail) by {
        assert forall i :: 1 <= i < |records| ==> records[i] == tail[i - 1];
      }
      RemainingKeepsOthers(tail, rollno);
      assert records == [records[0]] + tail;
      assert multiset(records) == multiset{records[0]} + multiset(tail);
    }
  }

  /** The comprehension commutes with concatenation: the kept rows stay in their order. */
  lemma {:induction false} RemainingKeepsOrder(a: seq<Record>, b: seq<Record>, rollno: string)
    requires Keyed(a) && Keyed(b)
    ensures Keyed(a + b)
    ensures Remaining(a + b, rollno) == Remaining(a, rollno) + Remaining(b, rollno)
    decreases |a|
  {
    assert Keyed(a + b) by {
      forall i | 0 <= i < |a + b| ensures RollnoField in (a + b)[i] {
        if i >= |a| {
          assert (a + b)[i] == b[i - |a|];
        }
      }
    }
    if a != [] {
      var tail := a[1..];
      assert Keyed(tail) by {
        assert forall i :: 1 <= i < |a| ==> a[i] == tail[i - 1];
      }
      RemainingKeepsOrder(tail, b, rollno);
      assert (a + b)[1..] == tail + b;
    } else {
      assert a + b == b;
    }
  }

  /** delete_record: not found when the comprehension removed nothing, otherwise the remaining rows. */
  function Delete(records: seq<Record>, rollno: string): (r: Result<seq<Record>, StoreError>)
    requires Keyed(records)
    ensures r.Err? <==> !AnyHasRollno(records, rollno)
    ensures r.Err? ==> r.error == NotFound(rollno)
    ensures r.Ok? ==> r.value == Remaining(records, rollno)
  {
    RemainingUnchangedIff(records, rollno);
    var kept := Remaining(records, rollno);
    if kept == records then Err(NotFound(rollno)) else Ok(kept)
  }

  /** After a successful delete no row has the Rollno, so repeating it is not found. */
  lemma DeleteTwiceNotFound(records: seq<Record>, rollno: string)
    requires Keyed(records)
    ensures Delete(records, rollno).Ok? ==>
              && Keyed(Delete(records, rollno).value)
              && Delete(Delete(records, rollno).value, rollno) == Err(NotFound(rollno))
              && Lookup(Delete(records, rollno).value, rollno) == Err(NotFound(rollno))
  {
    if Delete(records, rollno).Ok? {
      var rest := Delete(records, rollno).value;
      assert forall i :: 0 <= i < |rest| ==> rest[i] in rest;
    }
  }

  /** Deleting rows keeps the Rollnos of the rest unique. */
  lemma {:induction false} DeleteKeepsUnique(records: seq<Record>, rollno: string)
    requires UniqueRollnos(records)
    ensures UniqueRollnos(Remaining(records, rollno))
    decreases |records|
  {
    if records != [] {
      var tail := records[1..];
      assert UniqueRollnos(tail) by {
        assert forall i :: 1 <= i < |records| ==> records[i] == tail[i - 1];
      }
      DeleteKeepsUnique(tail, rollno);
      var rest := Remaining(tail, rollno);
      var s := Remaining(records, rollno);
      if records[0][RollnoField] != rollno {
        assert s == [records[0]] + rest;
        forall i, j | 0 <= i < j < |s|
          ensures s[i][RollnoField] != s[j][RollnoField]
        {
          if i == 0 {
            assert s[j] == rest[j - 1] && rest[j - 1] in rest;
            var k :| 0 <= k < |tail| && tail[k] == s[j];
            assert tail[k] == records[k + 1];
          } else {
            assert s[i] == rest[i - 1] && s[j] == rest[j - 1];
          }
        }
      }
    }
  }
}
