/**
 * The shortlist-request service (table `shortlist_request_c`): the
 * row-to-request mapping its three read paths share, the one record
 * `create` submits, and the sparse patch `update` sends.
 */
module Shortlist {
  import opened Js
  import opened Backend

  const TableName := "shortlist_request_c"

  /** A shortlist request as the application sees it. */
  datatype ShortlistRequest = ShortlistRequest(
    id: JsValue,
    employerId: JsValue,
    jobId: JsValue,
    criteria: JsValue,
    numberOfCandidates: JsValue,
    urgency: JsValue,
    additionalNotes: JsValue,
    status: JsValue,
    requestDate: JsValue)

  /**
   * The request one backend row maps to: each field falls back to its
   * default when the stored value is falsy, the job reference is flattened
   * to a string id, and a missing request date reads as the current time.
   */
  function ToRequest(row: JsValue, now: string): (r: ShortlistRequest)
    ensures r.id == Prop(row, "Id")
    ensures Defaulted(r.employerId, Prop(row, "employer_id_c"), Str(""))
    ensures Defaulted(r.criteria, Prop(row, "criteria_c"), Str(""))
    ensures Defaulted(r.numberOfCandidates, Prop(row, "number_of_candidates_c"), Num(0))
    ensures Defaulted(r.urgency, Prop(row, "urgency_c"), Str("medium"))
    ensures Defaulted(r.additionalNotes, Prop(row, "additional_notes_c"), Str(""))
    ensures Defaulted(r.status, Prop(row, "status_c"), Str("pending"))
    ensures Defaulted(r.requestDate, Prop(row, "request_date_c"), Str(now))
    ensures IsTruthy(r.urgency) && IsTruthy(r.status)
    ensures var ref := Prop(Prop(row, "job_id_c"), "Id");
      && (IsTruthy(ref) ==> r.jobId == Str(ToJsString(ref)))
      && (!IsTruthy(ref) ==> r.jobId == Str(""))
  {
    ShortlistRequest(
      Prop(row, "Id"),
      Or(Prop(row, "employer_id_c"), Str("")),
      ReferenceId(Prop(row, "job_id_c")),
      Or(Prop(row, "criteria_c"), Str("")),
      Or(Prop(row, "number_of_candidates_c"), Num(0)),
      Or(Prop(row, "urgency_c"), Str("medium")),
      Or(Prop(row, "additional_notes_c"), Str("")),
      Or(Prop(row, "status_c"), Str("pending")),
      Or(Prop(row, "request_date_c"), Str(now)))
  }

  /** The `.map` callback: reading a field of a null or undefined row throws. */
  function MapRow(row: JsValue, now: string): Option<ShortlistRequest> {
    if IsNullish(row) then None else Some(ToRequest(row, now))
  }

  /**
   * `getAll()` and `getByEmployerId(employerId)`: the two list reads differ
   * only in the query they send, and map the answer identically.
   */
  function ReadRequests(reply: Reply<FetchResponse>, now: string): (r: seq<ShortlistRequest>)
    ensures ListedRows(reply).None? ==> r == []
    ensures ListedRows(reply).Some? ==>
      var rows := ListedRows(reply).value;
      if forall i :: 0 <= i < |rows| ==> !IsNullish(rows[i])
      then |r| == |rows| && forall i :: 0 <= i < |rows| ==> r[i] == ToRequest(rows[i], now)
      else r == []
  {
    ReadList(reply, row => MapRow(row, now))
  }

  /** `getById(id)`: the mapped request, or null. */
  function GetById(reply: Reply<FetchResponse>, now: string): (r: Option<ShortlistRequest>)
    ensures r.Some? <==> reply.Answered? && reply.response.success && IsTruthy(reply.response.data)
    ensures r.Some? ==> r.value == ToRequest(reply.response.data, now)
  {
    ReadOne(reply, row => Some(ToRequest(row, now)))
  }

  /**
   * The list reads and the read by id give the same request for the same
   * row: when every listed row is truthy, the i-th listed request is what
   * `getById` gives for the i-th row.
   */
  lemma ReadPathsAgree(reply: Reply<FetchResponse>, message: JsValue, now: string, i: int)
    requires ListedRows(reply).Some?
    requires forall j :: 0 <= j < |ListedRows(reply).value| ==> IsTruthy(ListedRows(reply).value[j])
    requires 0 <= i < |ListedRows(reply).value|
    ensures |ReadRequests(reply, now)| == |ListedRows(reply).value|
    ensures GetById(Answered(FetchResponse(true, message, ListedRows(reply).value[i])), now)
      == Some(ReadRequests(reply, now)[i])
  {
    var rows := ListedRows(reply).value;
    assert forall j :: 0 <= j < |rows| ==> !IsNullish(rows[j]);
  }

  /** The one condition `getByEmployerId(employerId)` sends: the employer column equal to the argument as given. */
  function EmployerFilter(employerId: JsValue): (w: Where)
    ensures w.fieldName == "employer_id_c" && w.operator == "EqualTo"
    ensures w.values == [employerId]
  {
    Where("employer_id_c", "EqualTo", [employerId])
  }

  /**
   * Listing the requests of the employer a request was read with asks for
   * the stored employer when one is stored, and for "" when none is.
   */
  lemma EmployerFilterOfRead(row: JsValue, now: string)
    ensures var stored := Prop(row, "employer_id_c");
      EmployerFilter(ToRequest(row, now).employerId).values == [if IsTruthy(stored) then stored else Str("")]
  {
  }

  /** The properties of `requestData` that `create` reads; an absent one is undefined. */
  datatype RequestData = RequestData(
    employerId: JsValue,
    jobId: JsValue,
    criteria: JsValue,
    numberOfCandidates: JsValue,
    urgency: JsValue,
    additionalNotes: JsValue,
    status: JsValue)

  /**
   * The one record `create(requestData)` submits: the inputs under their
   * column names, the job reference and the candidate count through
   * `parseInt`, status "pending" unless one is given, and the submission time.
   */
  function CreateRecord(d: RequestData, today: string, now: string): (record: Fields)
    ensures record.Keys == {"Name", "employer_id_c", "job_id_c", "criteria_c", "number_of_candidates_c",
                            "urgency_c", "additional_notes_c", "status_c", "request_date_c"}
    ensures record["Name"] == Str("Shortlist Request - " + today)
    ensures record["employer_id_c"] == d.employerId
    ensures record["job_id_c"] == ParseInt(d.jobId)
    ensures record["criteria_c"] == d.criteria
    ensures record["number_of_candidates_c"] == ParseInt(d.numberOfCandidates)
    ensures record["urgency_c"] == d.urgency
    ensures record["additional_notes_c"] == d.additionalNotes
    ensures Defaulted(record["status_c"], d.status, Str("pending"))
    ensures record["request_date_c"] == Str(now)
  {
    map[
      "Name" := Str("Shortlist Request - " + today),
      "employer_id_c" := d.employerId,
      "job_id_c" := ParseInt(d.jobId),
      "criteria_c" := d.criteria,
      "number_of_candidates_c" := ParseInt(d.numberOfCandidates),
      "urgency_c" := d.urgency,
      "additional_notes_c" := d.additionalNotes,
      "status_c" := Or(d.status, Str("pending")),
      "request_date_c" := Str(now)]
  }

  /**
   * Creating a request and reading its row back gives the input with the
   * documented defaults: the request date is the creation time, the job
   * reference comes back as the numeral of the parsed id (or "" for 0 and
   * NaN), and the candidate count as the parsed number (or 0).
   */
  lemma CreateThenRead(d: RequestData, today: string, now: string, id: int, later: string)
    requires now != ""
    ensures var r := ToRequest(StoredRow(CreateRecord(d, today, now), id, {"job_id_c"}), later);
      var job := ParseInt(d.jobId);
      && r.id == Num(id)
      && r.employerId == Or(d.employerId, Str(""))
      && r.jobId == (if job.Num? && job.n != 0 then Str(Decimal(job.n)) else Str(""))
      && r.criteria == Or(d.criteria, Str(""))
      && r.numberOfCandidates == Or(ParseInt(d.numberOfCandidates), Num(0))
      && r.urgency == Or(d.urgency, Str("medium"))
      && r.additionalNotes == Or(d.additionalNotes, Str(""))
      && r.status == Or(d.status, Str("pending"))
      && r.requestDate == Str(now)
  {
    var record := CreateRecord(d, today, now);
    var row := StoredRow(record, id, {"job_id_c"});
    assert Prop(row, "job_id_c") == Obj(map["Id" := record["job_id_c"]]);
    assert Prop(Prop(row, "job_id_c"), "Id") == ParseInt(d.jobId);
    assert Prop(row, "employer_id_c") == d.employerId && Prop(row, "criteria_c") == d.criteria;
    assert Prop(row, "number_of_candidates_c") == ParseInt(d.numberOfCandidates);
    assert Prop(row, "urgency_c") == d.urgency && Prop(row, "additional_notes_c") == d.additionalNotes;
    assert Prop(row, "status_c") == Or(d.status, Str("pending")) && Prop(row, "request_date_c") == Str(now);
  }

  /** The columns `update` may write, with the input each comes from. */
  const UpdateColumns: seq<Column> := [
    Column("employerId", "employer_id_c", AsIs),
    Column("jobId", "job_id_c", ToInt),
    Column("criteria", "criteria_c", AsIs),
    Column("numberOfCandidates", "number_of_candidates_c", ToInt),
    Column("urgency", "urgency_c", AsIs),
    Column("additionalNotes", "additional_notes_c", AsIs),
    Column("status", "status_c", AsIs)]

  /** `update(id, updates)` builds `updateData` one truthy field at a time. */
  method UpdatePatch(id: JsValue, updates: Fields) returns (patch: Fields)
    ensures IsSparsePatch(patch, id, updates, UpdateColumns)
  {
    assert DistinctNames(UpdateColumns);
    patch := BuildPatch(id, updates, UpdateColumns);
  }
}
