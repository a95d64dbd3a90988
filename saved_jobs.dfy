/**
 * The saved-jobs service (table `saved_job_c`): the row mapping of its two
 * reads, and the two operations that talk to the backend more than once —
 * `create`, which checks `isJobSaved` before inserting, and
 * `deleteSavedJob`, which finds the saved row for a job and deletes it by
 * that row's own id. Those run against `SavedJobStore`, a sequential
 * stand-in for the hosted table that keeps the rows and a trace of the
 * calls it receives.
 */
module SavedJobs {
  import opened Js
  import opened Backend

  const TableName := "saved_job_c"

  /** A saved job as the application sees it. */
  datatype SavedJob = SavedJob(id: JsValue, jobId: JsValue, savedAt: JsValue)

  /**
   * The saved job one backend row maps to: the job is the referenced `Id`
   * itself (not a string), or null; a missing save time reads as the
   * current time.
   */
  function ToSavedJob(row: JsValue, now: string): (r: SavedJob)
    ensures r.id == Prop(row, "Id")
    ensures Defaulted(r.jobId, Prop(Prop(row, "job_id_c"), "Id"), Null)
    ensures Defaulted(r.savedAt, Prop(row, "saved_at_c"), Str(now))
    ensures IsTruthy(r.savedAt) <==> IsTruthy(Prop(row, "saved_at_c")) || now != ""
  {
    SavedJob(
      Prop(row, "Id"),
      Or(Prop(Prop(row, "job_id_c"), "Id"), Null),
      Or(Prop(row, "saved_at_c"), Str(now)))
  }

  /** The `.map` callback: reading a field of a null or undefined row throws. */
  function MapRow(row: JsValue, now: string): Option<SavedJob> {
    if IsNullish(row) then None else Some(ToSavedJob(row, now))
  }

  /** `getAll()`: every listed row mapped, or []. */
  function ReadSavedJobs(reply: Reply<FetchResponse>, now: string): (r: seq<SavedJob>)
    ensures ListedRows(reply).None? ==> r == []
    ensures ListedRows(reply).Some? ==>
      var rows := ListedRows(reply).value;
      if forall i :: 0 <= i < |rows| ==> !IsNullish(rows[i])
      then |r| == |rows| && forall i :: 0 <= i < |rows| ==> r[i] == ToSavedJob(rows[i], now)
      else r == []
  {
    ReadList(reply, row => MapRow(row, now))
  }

  /** `getById(id)`: the mapped saved job, or null. */
  function GetById(reply: Reply<FetchResponse>, now: string): (r: Option<SavedJob>)
    ensures r.Some? <==> reply.Answered? && reply.response.success && IsTruthy(reply.response.data)
    ensures r.Some? ==> r.value == ToSavedJob(reply.response.data, now)
  {
    ReadOne(reply, row => Some(ToSavedJob(row, now)))
  }

  /** `isJobSaved`'s answer to a fetch: success and a positive `data?.length`; false on every failure. */
  function IsSavedValue(reply: Reply<FetchResponse>): (saved: bool)
    ensures saved ==> reply.Answered? && reply.response.success
    ensures saved ==> reply.response.data.Arr? ==> |reply.response.data.elems| > 0
    ensures (reply.Answered? && reply.response.success && reply.response.data.Arr?
             && |reply.response.data.elems| > 0) ==> saved
  {
    reply.Answered? && reply.response.success && IsPositive(Prop(reply.response.data, "length"))
  }

  /** The one record `create(jobId)` submits. */
  function SaveRecord(jobId: JsValue, now: string): (record: Fields)
    ensures record.Keys == {"Name", "job_id_c", "saved_at_c"}
    ensures record["Name"] == Str("Saved Job - " + ToJsString(jobId))
    ensures record["job_id_c"] == ParseInt(jobId)
    ensures record["saved_at_c"] == Str(now)
  {
    map["Name" := Str("Saved Job - " + ToJsString(jobId)), "job_id_c" := ParseInt(jobId), "saved_at_c" := Str(now)]
  }

  /** `data[0]` of a fetch answer whose `length` is truthy. */
  function FirstRow(data: JsValue): (first: JsValue)
    ensures data.Arr? && |data.elems| > 0 ==> first == data.elems[0]
    ensures data.Arr? && |data.elems| == 0 ==> first.Undefined?
    ensures data.Obj? ==> first == Get(data.fields, "0")
  {
    match data
    case Arr(es) => if |es| > 0 then es[0] else Undefined
    case Str(s) => if |s| > 0 then Str([s[0]]) else Undefined
    case Obj(fields) => Get(fields, "0")
    case _ => Undefined
  }

  /** What `deleteSavedJob` does after its find: give up, throw on `data[0].Id`, or delete one id. */
  datatype FindOutcome = NotFound | FindThrows | DeleteId(id: JsValue)

  function AfterFind(find: FetchResponse): (o: FindOutcome)
    ensures o.NotFound? <==> !find.success || !IsTruthy(Prop(find.data, "length"))
    ensures o.DeleteId? ==> o.id == Prop(FirstRow(find.data), "Id")
    ensures !o.NotFound? ==> (o.FindThrows? <==> IsNullish(FirstRow(find.data)))
  {
    if !find.success || !IsTruthy(Prop(find.data, "length")) then NotFound
    else if IsNullish(FirstRow(find.data)) then FindThrows
    else DeleteId(Prop(FirstRow(find.data), "Id"))
  }

  // ---------------------------------------------------------------------------
  // The store

  /** One stored row: the id the backend assigned and the three payload values. */
  datatype Row = Row(id: int, name: JsValue, job: JsValue, savedAt: JsValue)

  /** The row a created record becomes. */
  function RowOf(record: Fields, id: int): Row {
    Row(id, Get(record, "Name"), Get(record, "job_id_c"), Get(record, "saved_at_c"))
  }

  /** A row as a fetch returns it: the job column is a lookup, an object carrying the `Id`. */
  function RowValue(r: Row): (v: JsValue)
    ensures Prop(v, "Id") == Num(r.id)
    ensures Prop(Prop(v, "job_id_c"), "Id") == r.job
    ensures Prop(v, "saved_at_c") == r.savedAt
  {
    Obj(map["Id" := Num(r.id), "Name" := r.name, "job_id_c" := Obj(map["Id" := r.job]), "saved_at_c" := r.savedAt])
  }

  function RowValues(rows: seq<Row>): (vs: seq<JsValue>)
    ensures |vs| == |rows| && forall i :: 0 <= i < |rows| ==> vs[i] == RowValue(rows[i])
  {
    seq(|rows|, i requires 0 <= i < |rows| => RowValue(rows[i]))
  }

  /** The rows whose job is `job`, in store order. */
  function Matching(rows: seq<Row>, job: JsValue): (m: seq<Row>)
    ensures forall r :: r in m <==> r in rows && r.job == job
    decreases |rows|
  {
    if |rows| == 0 then []
    else if rows[0].job == job then [rows[0]] + Matching(rows[1..], job)
    else Matching(rows[1..], job)
  }

  predicate HasJob(rows: seq<Row>, job: JsValue) {
    exists i :: 0 <= i < |rows| && rows[i].job == job
  }

  /** Row `k` is the first row holding `job`. */
  predicate FirstMatchAt(rows: seq<Row>, job: JsValue, k: int) {
    0 <= k < |rows| && rows[k].job == job && forall j :: 0 <= j < k ==> rows[j].job != job
  }

  /** There is at most one first row holding a job. */
  lemma FirstMatchUnique(rows: seq<Row>, job: JsValue, k: int, k': int)
    requires FirstMatchAt(rows, job, k) && FirstMatchAt(rows, job, k')
    ensures k == k'
  {
  }

  /** The matching rows start with the first row holding the job. */
  lemma {:induction false} MatchingHead(rows: seq<Row>, job: JsValue, k: int)
    requires FirstMatchAt(rows, job, k)
    ensures |Matching(rows, job)| > 0 && Matching(rows, job)[0] == rows[k]
    decreases |rows|
  {
    if k > 0 {
      assert FirstMatchAt(rows[1..], job, k - 1);
      MatchingHead(rows[1..], job, k - 1);
    }
  }

  /** When some row holds the job, one of them is the first. */
  lemma {:induction false} FirstMatchExists(rows: seq<Row>, job: JsValue)
    requires HasJob(rows, job)
    ensures exists k :: FirstMatchAt(rows, job, k)
    decreases |rows|
  {
    if rows[0].job == job {
      assert FirstMatchAt(rows, job, 0);
    } else {
      var i :| 0 <= i < |rows| && rows[i].job == job;
      assert rows[1..][i - 1].job == job;
      FirstMatchExists(rows[1..], job);
      var k :| FirstMatchAt(rows[1..], job, k);
      assert FirstMatchAt(rows, job, k + 1);
    }
  }

  /** The rows whose id is not among `ids`, in store order. */
  function Without(rows: seq<Row>, ids: seq<JsValue>): (kept: seq<Row>)
    ensures forall r :: r in kept <==> r in rows && Num(r.id) !in ids
    decreases |rows|
  {
    if |rows| == 0 then []
    else if Num(rows[0].id) in ids then Without(rows[1..], ids)
    else [rows[0]] + Without(rows[1..], ids)
  }

  predicate HasId(rows: seq<Row>, id: JsValue) {
    exists i :: 0 <= i < |rows| && Num(rows[i].id) == id
  }

  /** Row ids are positive, below `nextId`, and pairwise different. */
  predicate WellNumbered(rows: seq<Row>, nextId: int) {
    && (forall i :: 0 <= i < |rows| ==> 1 <= rows[i].id < nextId)
    && (forall i, j :: 0 <= i < j < |rows| ==> rows[i].id != rows[j].id)
  }

  /** No job is saved twice. */
  predicate NoDuplicateJobs(rows: seq<Row>) {
    forall i, j :: 0 <= i < j < |rows| ==> rows[i].job != rows[j].job
  }

  lemma MatchingNonEmpty(rows: seq<Row>, job: JsValue)
    ensures |Matching(rows, job)| > 0 <==> HasJob(rows, job)
  {
    if HasJob(rows, job) {
      var i :| 0 <= i < |rows| && rows[i].job == job;
      assert rows[i] in Matching(rows, job);
    }
  }

  /** Removing rows keeps the numbering valid. */
  lemma {:induction false} WithoutKeepsNumbering(rows: seq<Row>, ids: seq<JsValue>, nextId: int)
    requires WellNumbered(rows, nextId)
    ensures WellNumbered(Without(rows, ids), nextId)
    decreases |rows|
  {
    if |rows| > 0 {
      var tail := rows[1..];
      assert WellNumbered(tail, nextId);
      WithoutKeepsNumbering(tail, ids, nextId);
      var rest := Without(tail, ids);
      if Num(rows[0].id) !in ids {
        assert forall r :: r in rest ==> r in tail;
        assert forall r :: r in tail ==> r.id != rows[0].id;
        PrependNumbered(rows[0], rest, nextId);
      }
    }
  }

  lemma PrependNumbered(r: Row, rest: seq<Row>, nextId: int)
    requires WellNumbered(rest, nextId) && 1 <= r.id < nextId
    requires forall x :: x in rest ==> x.id != r.id
    ensures WellNumbered([r] + rest, nextId)
  {
    var all := [r] + rest;
    forall i, j | 0 <= i < j < |all| ensures all[i].id != all[j].id {
      assert all[j] == rest[j - 1];
      if i > 0 {
        assert all[i] == rest[i - 1];
      } else {
        assert rest[j - 1] in rest;
      }
    }
  }

  /** Rows none of whose ids is listed are all kept. */
  lemma {:induction false} WithoutNone(rows: seq<Row>, ids: seq<JsValue>)
    requires forall i :: 0 <= i < |rows| ==> Num(rows[i].id) !in ids
    ensures Without(rows, ids) == rows
    decreases |rows|
  {
    if |rows| > 0 {
      WithoutNone(rows[1..], ids);
    }
  }

  /** Deleting the id of a last row that no other row shares drops just that row. */
  lemma {:induction false} WithoutLast(rows: seq<Row>, r: Row)
    requires Without(rows, [Num(r.id)]) == rows
    ensures Without(rows + [r], [Num(r.id)]) == rows
    decreases |rows|
  {
    if |rows| == 0 {
      assert rows + [r] == [r];
    } else {
      assert (rows + [r])[1..] == rows[1..] + [r];
      assert Num(rows[0].id) !in [Num(r.id)] by {
        assert rows[0] in Without(rows, [Num(r.id)]);
      }
      assert Without(rows[1..], [Num(r.id)]) == rows[1..];
      WithoutLast(rows[1..], r);
    }
  }

  /** Deleting one row's own id removes that row and only that row. */
  lemma {:induction false} WithoutOne(rows: seq<Row>, nextId: int, k: int)
    requires WellNumbered(rows, nextId) && 0 <= k < |rows|
    ensures |Without(rows, [Num(rows[k].id)])| == |rows| - 1
    ensures forall r :: r in rows && r != rows[k] ==> r in Without(rows, [Num(rows[k].id)])
    decreases |rows|
  {
    var ids := [Num(rows[k].id)];
    if k == 0 {
      WithoutNone(rows[1..], ids);
    } else {
      assert WellNumbered(rows[1..], nextId);
      WithoutOne(rows[1..], nextId, k - 1);
      assert rows[1..][k - 1] == rows[k];
    }
  }

  /** Appending a row appends it to the matches when it holds the job. */
  lemma {:induction false} MatchingAppend(rows: seq<Row>, r: Row, job: JsValue)
    ensures Matching(rows + [r], job) == Matching(rows, job) + (if r.job == job then [r] else [])
    decreases |rows|
  {
    if |rows| == 0 {
      assert rows + [r] == [r];
    } else {
      assert (rows + [r])[1..] == rows[1..] + [r];
      MatchingAppend(rows[1..], r, job);
    }
  }

  /** One result entry per requested id: a success exactly when a row had that id. */
  function DeleteResults(rows: seq<Row>, ids: seq<JsValue>): (rs: seq<Entry>)
    ensures |rs| == |ids| && forall i :: 0 <= i < |ids| ==> (rs[i].success <==> HasId(rows, ids[i]))
  {
    seq(|ids|, i requires 0 <= i < |ids| => Entry(HasId(rows, ids[i]), Undefined, Undefined))
  }

  /** One backend call, as the store's trace records it. */
  datatype Call = Fetch(filter: Where, limit: nat) | Insert(record: Fields) | Remove(ids: seq<JsValue>)

  function Take<T>(xs: seq<T>, n: nat): (t: seq<T>)
    ensures |t| == if |xs| <= n then |xs| else n
    ensures forall i :: 0 <= i < |t| ==> t[i] == xs[i]
  {
    if |xs| <= n then xs else xs[..n]
  }

  /** How the backend treats a call: it accepts it, answers `success: false`, or the call throws. */
  datatype Outcome = Accepted | Rejected | Thrown

  /**
   * A sequential stand-in for the `saved_job_c` table behind the client:
   * whether a client can be obtained, how the backend treats fetches and
   * how it treats writes (inserts and deletes), the stored rows with the
   * next id to assign, and every call received.
   */
  class SavedJobStore {
    var ready: bool
    var fetch: Outcome
    var write: Outcome
    var rows: seq<Row>
    var nextId: int
    var calls: seq<Call>

    /** Ids are positive, below `nextId`, and distinct. */
    predicate Valid()
      reads this
    {
      nextId >= 1 && WellNumbered(rows, nextId)
    }

    constructor(ready: bool, fetch: Outcome, write: Outcome)
      ensures Valid()
      ensures this.ready == ready && this.fetch == fetch && this.write == write && rows == [] && calls == []
    {
      this.ready := ready;
      this.fetch := fetch;
      this.write := write;
      rows := [];
      nextId := 1;
      calls := [];
    }

    // -- The backend's three calls (what the hosted service is assumed to do)

    /** `fetchRecords` with one `where` condition on the job column and a page size. */
    method FetchRecords(filter: Where, limit: nat) returns (reply: Reply<FetchResponse>)
      modifies this
      ensures rows == old(rows) && nextId == old(nextId)
      ensures ready == old(ready) && fetch == old(fetch) && write == old(write)
      ensures calls == old(calls) + [Fetch(filter, limit)]
      ensures fetch.Thrown? ==> reply == Raised
      ensures fetch.Rejected? ==> reply == Answered(FetchResponse(false, Undefined, Undefined))
      ensures fetch.Accepted? ==> |filter.values| > 0 ==>
        reply == Answered(FetchResponse(true, Undefined, Arr(RowValues(Take(Matching(rows, filter.values[0]), limit)))))
    {
      calls := calls + [Fetch(filter, limit)];
      match fetch
      case Thrown =>
        reply := Raised;
      case Rejected =>
        reply := Answered(FetchResponse(false, Undefined, Undefined));
      case Accepted =>
        if |filter.values| > 0 {
          reply := Answered(FetchResponse(true, Undefined, Arr(RowValues(Take(Matching(rows, filter.values[0]), limit)))));
        } else {
          reply := Answered(FetchResponse(true, Undefined, Arr(RowValues(Take(rows, limit)))));
        }
    }

    /**
     * `createRecord` with one record: when accepted, stored under the next id
     * and returned as the entry's data; otherwise nothing is stored.
     */
    method CreateRecord(record: Fields) returns (reply: Reply<MutationResponse>)
      requires Valid()
      modifies this
      ensures Valid() && ready == old(ready) && fetch == old(fetch) && write == old(write)
      ensures calls == old(calls) + [Insert(record)]
      ensures !write.Accepted? ==> rows == old(rows) && nextId == old(nextId)
      ensures write.Thrown? ==> reply == Raised
      ensures write.Rejected? ==> reply == Answered(MutationResponse(false, Undefined, None))
      ensures write.Accepted? ==> rows == old(rows) + [RowOf(record, old(nextId))] && nextId == old(nextId) + 1
      ensures write.Accepted? ==> reply == Answered(MutationResponse(true, Undefined,
        Some([Entry(true, Undefined, RowValue(RowOf(record, old(nextId))))])))
    {
      calls := calls + [Insert(record)];
      match write
      case Thrown =>
        reply := Raised;
      case Rejected =>
        reply := Answered(MutationResponse(false, Undefined, None));
      case Accepted =>
        var row := RowOf(record, nextId);
        rows := rows + [row];
        nextId := nextId + 1;
        reply := Answered(MutationResponse(true, Undefined, Some([Entry(true, Undefined, RowValue(row))])));
    }

    /** `deleteRecord`: when accepted, drops the rows with the given ids, one result entry per id. */
    method DeleteRecord(ids: seq<JsValue>) returns (reply: Reply<MutationResponse>)
      requires Valid()
      modifies this
      ensures Valid() && nextId == old(nextId)
      ensures ready == old(ready) && fetch == old(fetch) && write == old(write)
      ensures calls == old(calls) + [Remove(ids)]
      ensures !write.Accepted? ==> rows == old(rows)
      ensures write.Thrown? ==> reply == Raised
      ensures write.Rejected? ==> reply == Answered(MutationResponse(false, Undefined, None))
      ensures write.Accepted? ==> rows == Without(old(rows), ids)
      ensures write.Accepted? ==> reply == Answered(MutationResponse(true, Undefined, Some(DeleteResults(old(rows), ids))))
    {
      calls := calls + [Remove(ids)];
      match write
      case Thrown =>
        reply := Raised;
      case Rejected =>
        reply := Answered(MutationResponse(false, Undefined, None));
      case Accepted =>
        var results := DeleteResults(rows, ids);
        WithoutKeepsNumbering(rows, ids, nextId);
        rows := Without(rows, ids);
        reply := Answered(MutationResponse(true, Undefined, Some(results)));
    }

    // -- The service

    /**
     * `isJobSaved(jobId)`: one fetch for the job, limited to one row; true
     * exactly when the fetch is accepted and some row holds the job. A
     * rejected or throwing fetch answers false.
     */
    method IsJobSaved(jobId: JsValue) returns (saved: bool)
      modifies this
      ensures rows == old(rows) && nextId == old(nextId)
      ensures ready == old(ready) && fetch == old(fetch) && write == old(write)
      ensures calls == old(calls) + if ready then [Fetch(JobIdFilter(jobId), 1)] else []
      ensures saved <==> ready && fetch.Accepted? && HasJob(rows, ParseInt(jobId))
    {
      if !ready {
        return false;
      }
      var reply := FetchRecords(JobIdFilter(jobId), 1);
      saved := IsSavedValue(reply);
      MatchingNonEmpty(rows, ParseInt(jobId));
    }

    /**
     * `create(jobId)`: check, then insert. Nothing is inserted (and null
     * returned) when the check finds the job; otherwise the record is
     * submitted, and when the backend accepts it the new row is the one
     * returned. A check that is rejected or throws answers false, so the
     * insert is still attempted: only an accepted check keeps a job from
     * being saved twice.
     */
    method Create(jobId: JsValue, now: string) returns (r: JsValue)
      requires Valid()
      modifies this
      ensures Valid() && ready == old(ready) && fetch == old(fetch) && write == old(write)
      ensures !ready ==> r == Null && rows == old(rows) && nextId == old(nextId) && calls == old(calls)
      ensures ready && fetch.Accepted? && HasJob(old(rows), ParseInt(jobId)) ==>
        r == Null && rows == old(rows) && nextId == old(nextId) && calls == old(calls) + [Fetch(JobIdFilter(jobId), 1)]
      ensures ready && !(fetch.Accepted? && HasJob(old(rows), ParseInt(jobId))) ==>
        calls == old(calls) + [Fetch(JobIdFilter(jobId), 1), Insert(SaveRecord(jobId, now))]
      ensures ready && !(fetch.Accepted? && HasJob(old(rows), ParseInt(jobId))) && !write.Accepted? ==>
        r == Null && rows == old(rows) && nextId == old(nextId)
      ensures ready && !(fetch.Accepted? && HasJob(old(rows), ParseInt(jobId))) && write.Accepted? ==>
        var row := RowOf(SaveRecord(jobId, now), old(nextId));
        && row.job == ParseInt(jobId)
        && rows == old(rows) + [row] && nextId == old(nextId) + 1 && r == RowValue(row)
      ensures fetch.Accepted? && NoDuplicateJobs(old(rows)) ==> NoDuplicateJobs(rows)
    {
      if !ready {
        return Null;
      }
      var saved := IsJobSaved(jobId);
      if saved {
        return Null;
      }
      var reply := CreateRecord(SaveRecord(jobId, now));
      r := MutationValue(reply);
      if write.Accepted? {
        assert FirstSuccessAt(reply.response.results.value, 0);
      }
    }

    /**
     * The second half of `deleteSavedJob`: delete one row by id and read
     * the answer; true exactly when the delete is accepted and a row had
     * that id.
     */
    method DeleteById(savedJobId: JsValue) returns (ok: bool)
      requires Valid()
      modifies this
      ensures Valid() && nextId == old(nextId)
      ensures ready == old(ready) && fetch == old(fetch) && write == old(write)
      ensures calls == old(calls) + [Remove([savedJobId])]
      ensures !write.Accepted? ==> !ok && rows == old(rows)
      ensures write.Accepted? ==> rows == Without(old(rows), [savedJobId]) && (ok <==> HasId(old(rows), savedJobId))
    {
      ghost var before := rows;
      var reply := DeleteRecord([savedJobId]);
      if write.Accepted? && HasId(before, savedJobId) {
        assert reply.response.results.value[0].success;
      }
      ok := DeleteValue(reply);
    }

    /**
     * `deleteSavedJob(jobId)`: find the first row for the job, then delete
     * that row by its own id. No delete call is made when the find is
     * rejected, throws or finds nothing; otherwise exactly that row goes
     * when the delete is accepted, and nothing goes (and false is returned)
     * when it is not.
     */
    method DeleteSavedJob(jobId: JsValue) returns (ok: bool)
      requires Valid()
      modifies this
      ensures Valid() && nextId == old(nextId)
      ensures ready == old(ready) && fetch == old(fetch) && write == old(write)
      ensures !ready ==> !ok && rows == old(rows) && calls == old(calls)
      ensures ready && !(fetch.Accepted? && HasJob(old(rows), ParseInt(jobId))) ==>
        !ok && rows == old(rows) && calls == old(calls) + [Fetch(JobIdFilter(jobId), 1)]
      ensures ready && fetch.Accepted? ==> forall k :: FirstMatchAt(old(rows), ParseInt(jobId), k) ==>
        var id := old(rows)[k].id;
        && calls == old(calls) + [Fetch(JobIdFilter(jobId), 1), Remove([Num(id)])]
        && (!write.Accepted? ==> !ok && rows == old(rows))
        && (write.Accepted? ==>
          && ok
          && rows == Without(old(rows), [Num(id)])
          && |rows| == |old(rows)| - 1
          && (forall r :: r in old(rows) ==> (r in rows <==> r.id != id)))
    {
      if !ready {
        return false;
      }
      var find := FetchRecords(JobIdFilter(jobId), 1);
      if !find.Answered? {
        return false;
      }
      var job := ParseInt(jobId);
      MatchingNonEmpty(rows, job);
      match AfterFind(find.response)
      case NotFound =>
        return false;
      case FindThrows =>
        assert false;
        return false;
      case DeleteId(savedJobId) =>
        FirstMatchExists(rows, job);
        ghost var k :| FirstMatchAt(rows, job, k);
        MatchingHead(rows, job, k);
        ghost var before := rows;
        ghost var id := rows[k].id;
        assert savedJobId == Num(id);
        WithoutOne(rows, nextId, k);
        assert HasId(rows, savedJobId);
        ok := DeleteById(savedJobId);
        forall k' | FirstMatchAt(before, job, k')
          ensures k' == k
        {
          FirstMatchUnique(before, job, k, k');
        }
    }
  }

  /**
   * Two saves of the same job in a row, with a backend that accepts every
   * call: the first inserts the row and returns it, the second finds it and
   * inserts nothing, so the job is saved exactly once.
   */
  method SaveTwice(store: SavedJobStore, jobId: JsValue, now: string) returns (first: JsValue, second: JsValue)
    requires store.Valid() && store.ready && store.fetch.Accepted? && store.write.Accepted?
    requires !HasJob(store.rows, ParseInt(jobId))
    modifies store
    ensures var row := RowOf(SaveRecord(jobId, now), old(store.nextId));
      first == RowValue(row) && second == Null && store.rows == old(store.rows) + [row]
    ensures |Matching(store.rows, ParseInt(jobId))| == 1
  {
    ghost var row := RowOf(SaveRecord(jobId, now), store.nextId);
    MatchingAppend(store.rows, row, ParseInt(jobId));
    MatchingNonEmpty(store.rows, ParseInt(jobId));
    first := store.Create(jobId, now);
    second := store.Create(jobId, now);
  }

  /**
   * The check is best effort: when it is rejected or throws while inserts
   * are accepted, saving a job that is already saved stores it a second
   * time.
   */
  method SaveAgainUnchecked(store: SavedJobStore, jobId: JsValue, now: string) returns (r: JsValue)
    requires store.Valid() && store.ready && !store.fetch.Accepted? && store.write.Accepted?
    requires HasJob(store.rows, ParseInt(jobId))
    modifies store
    ensures r != Null
    ensures |Matching(store.rows, ParseInt(jobId))| == |Matching(old(store.rows), ParseInt(jobId))| + 1 >= 2
    ensures !NoDuplicateJobs(store.rows)
  {
    ghost var start := store.rows;
    ghost var job := ParseInt(jobId);
    ghost var row := RowOf(SaveRecord(jobId, now), store.nextId);
    MatchingAppend(store.rows, row, job);
    MatchingNonEmpty(store.rows, job);
    ghost var i :| 0 <= i < |start| && start[i].job == job;
    r := store.Create(jobId, now);
    assert store.rows == start + [row] && row.job == job;
    assert store.rows[i].job == store.rows[|start|].job;
  }

  /**
   * Saving a job and then deleting it, with a backend that accepts every
   * call, leaves the store's rows as they were.
   */
  method SaveThenDelete(store: SavedJobStore, jobId: JsValue, now: string) returns (saved: JsValue, deleted: bool)
    requires store.Valid() && store.ready && store.fetch.Accepted? && store.write.Accepted?
    requires !HasJob(store.rows, ParseInt(jobId))
    modifies store
    ensures saved != Null && deleted
    ensures store.rows == old(store.rows)
  {
    ghost var start := store.rows;
    ghost var row := RowOf(SaveRecord(jobId, now), store.nextId);
    saved := store.Create(jobId, now);
    assert FirstMatchAt(store.rows, ParseInt(jobId), |start|);
    deleted := store.DeleteSavedJob(jobId);
    assert forall i :: 0 <= i < |start| ==> start[i].id < row.id;
    WithoutNone(start, [Num(row.id)]);
    WithoutLast(start, row);
  }
}
