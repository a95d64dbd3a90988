/**
 * The application service (table `application_c`): the row-to-application
 * mapping of its three reads, the filter `getByJobId` sends, the record
 * `create` submits and the sparse patch `update` sends.
 */
module Applications {
  import opened Js
  import opened Backend

  const TableName := "application_c"

  /** A job application as the application sees it. */
  datatype Application = Application(
    id: JsValue,
    candidateName: JsValue,
    email: JsValue,
    phone: JsValue,
    coverLetter: JsValue,
    resumeUrl: JsValue,
    status: JsValue,
    submittedDate: JsValue,
    jobId: JsValue)

  /**
   * The application one backend row maps to: the text fields fall back to
   * "", the status to "submitted", a missing submission date reads as the
   * current time, and the job reference is flattened to a string id.
   */
  function ToApplication(row: JsValue, now: string): (r: Application)
    ensures r.id == Prop(row, "Id")
    ensures Defaulted(r.candidateName, Prop(row, "candidate_name_c"), Str(""))
    ensures Defaulted(r.email, Prop(row, "email_c"), Str(""))
    ensures Defaulted(r.phone, Prop(row, "phone_c"), Str(""))
    ensures Defaulted(r.coverLetter, Prop(row, "cover_letter_c"), Str(""))
    ensures Defaulted(r.resumeUrl, Prop(row, "resume_url_c"), Str(""))
    ensures Defaulted(r.status, Prop(row, "status_c"), Str("submitted"))
    ensures Defaulted(r.submittedDate, Prop(row, "submitted_date_c"), Str(now))
    ensures IsTruthy(r.status)
    ensures var ref := Prop(Prop(row, "job_id_c"), "Id");
      && (IsTruthy(ref) ==> r.jobId == Str(ToJsString(ref)))
      && (!IsTruthy(ref) ==> r.jobId == Str(""))
  {
    Application(
      Prop(row, "Id"),
      Or(Prop(row, "candidate_name_c"), Str("")),
      Or(Prop(row, "email_c"), Str("")),
      Or(Prop(row, "phone_c"), Str("")),
      Or(Prop(row, "cover_letter_c"), Str("")),
      Or(Prop(row, "resume_url_c"), Str("")),
      Or(Prop(row, "status_c"), Str("submitted")),
      Or(Prop(row, "submitted_date_c"), Str(now)),
      ReferenceId(Prop(row, "job_id_c")))
  }

  /** The `.map` callback: reading a field of a null or undefined row throws. */
  function MapRow(row: JsValue, now: string): Option<Application> {
    if IsNullish(row) then None else Some(ToApplication(row, now))
  }

  /** `getAll()` and `getByJobId(jobId)`: every listed row mapped, or []. */
  function ReadApplications(reply: Reply<FetchResponse>, now: string): (r: seq<Application>)
    ensures ListedRows(reply).None? ==> r == []
    ensures ListedRows(reply).Some? ==>
      var rows := ListedRows(reply).value;
      if forall i :: 0 <= i < |rows| ==> !IsNullish(rows[i])
      then |r| == |rows| && forall i :: 0 <= i < |rows| ==> r[i] == ToApplication(rows[i], now)
      else r == []
  {
    ReadList(reply, row => MapRow(row, now))
  }

  /** `getById(id)`: the mapped application, or null. */
  function GetById(reply: Reply<FetchResponse>, now: string): (r: Option<Application>)
    ensures r.Some? <==> reply.Answered? && reply.response.success && IsTruthy(reply.response.data)
    ensures r.Some? ==> r.value == ToApplication(reply.response.data, now)
  {
    ReadOne(reply, row => Some(ToApplication(row, now)))
  }

  /**
   * Listing the applications of the job an application was read with asks
   * for that very job: the string id the mapping produced parses back to
   * the stored numeric reference.
   */
  lemma JobIdFilterOfRead(row: JsValue, now: string, n: int)
    requires Prop(Prop(row, "job_id_c"), "Id") == Num(n) && n != 0
    ensures JobIdFilter(ToApplication(row, now).jobId) == Where("job_id_c", "EqualTo", [Num(n)])
  {
    ParseIntOfNumber(n);
  }

  /** The properties of `applicationData` that `create` reads; an absent one is undefined. */
  datatype ApplicationData = ApplicationData(
    candidateName: JsValue,
    email: JsValue,
    phone: JsValue,
    coverLetter: JsValue,
    resumeUrl: JsValue,
    status: JsValue,
    jobId: JsValue)

  /**
   * The one record `create(applicationData)` submits: the candidate name
   * both as the record `Name` and in its own column, status "submitted"
   * unless one is given, the submission time, and the job reference
   * through `parseInt`.
   */
  function CreateRecord(d: ApplicationData, now: string): (record: Fields)
    ensures record.Keys == {"Name", "candidate_name_c", "email_c", "phone_c", "cover_letter_c",
                            "resume_url_c", "status_c", "submitted_date_c", "job_id_c"}
    ensures record["Name"] == record["candidate_name_c"] == d.candidateName
    ensures record["email_c"] == d.email
    ensures record["phone_c"] == d.phone
    ensures record["cover_letter_c"] == d.coverLetter
    ensures record["resume_url_c"] == d.resumeUrl
    ensures Defaulted(record["status_c"], d.status, Str("submitted"))
    ensures record["submitted_date_c"] == Str(now)
    ensures record["job_id_c"] == ParseInt(d.jobId)
  {
    map[
      "Name" := d.candidateName,
      "candidate_name_c" := d.candidateName,
      "email_c" := d.email,
      "phone_c" := d.phone,
      "cover_letter_c" := d.coverLetter,
      "resume_url_c" := d.resumeUrl,
      "status_c" := Or(d.status, Str("submitted")),
      "submitted_date_c" := Str(now),
      "job_id_c" := ParseInt(d.jobId)]
  }

  /**
   * Creating an application and reading its row back gives the input with
   * the documented defaults; the job reference comes back as the numeral
   * of the parsed id (or "" for 0 and NaN) and the submission date is the
   * creation time.
   */
  lemma CreateThenRead(d: ApplicationData, now: string, id: int, later: string)
    requires now != ""
    ensures var r := ToApplication(StoredRow(CreateRecord(d, now), id, {"job_id_c"}), later);
      var job := ParseInt(d.jobId);
      && r.id == Num(id)
      && r.candidateName == Or(d.candidateName, Str(""))
      && r.email == Or(d.email, Str(""))
      && r.phone == Or(d.phone, Str(""))
      && r.coverLetter == Or(d.coverLetter, Str(""))
      && r.resumeUrl == Or(d.resumeUrl, Str(""))
      && r.status == Or(d.status, Str("submitted"))
      && r.submittedDate == Str(now)
      && r.jobId == (if job.Num? && job.n != 0 then Str(Decimal(job.n)) else Str(""))
  {
    var record := CreateRecord(d, now);
    var row := StoredRow(record, id, {"job_id_c"});
    assert Prop(row, "job_id_c") == Obj(map["Id" := record["job_id_c"]]);
  }

  /**
   * A minimal application (name, email and job "5") is stored as
   * "submitted" and reads back with job id "5".
   */
  lemma MinimalApplication(now: string, id: int, later: string)
    requires now != ""
    ensures var d := ApplicationData(Str("A"), Str("a@x.com"), Undefined, Undefined, Undefined, Undefined, Str("5"));
      var r := ToApplication(StoredRow(CreateRecord(d, now), id, {"job_id_c"}), later);
      && r.status == Str("submitted") && r.jobId == Str("5") && r.phone == Str("")
  {
    var d := ApplicationData(Str("A"), Str("a@x.com"), Undefined, Undefined, Undefined, Undefined, Str("5"));
    assert ParseInt(Str("5")) == Num(5) by {
      assert Decimal(5) == "5";
      ParseIntOfNumber(5);
    }
    CreateThenRead(d, now, id, later);
  }

  /** The columns `update` may write; a truthy candidate name writes two of them. */
  const UpdateColumns: seq<Column> := [
    Column("candidateName", "Name", AsIs),
    Column("candidateName", "candidate_name_c", AsIs),
    Column("email", "email_c", AsIs),
    Column("phone", "phone_c", AsIs),
    Column("coverLetter", "cover_letter_c", AsIs),
    Column("resumeUrl", "resume_url_c", AsIs),
    Column("status", "status_c", AsIs)]

  /** `update(id, updates)` builds `updateData` one truthy field at a time. */
  method UpdatePatch(id: JsValue, updates: Fields) returns (patch: Fields)
    ensures IsSparsePatch(patch, id, updates, UpdateColumns)
  {
    assert DistinctNames(UpdateColumns);
    patch := BuildPatch(id, updates, UpdateColumns);
  }

  /** Neither the job reference nor the submission date is an update column. */
  lemma UpdateColumnsSkipJobAndDate()
    ensures "job_id_c" !in ColumnNames(UpdateColumns) && "submitted_date_c" !in ColumnNames(UpdateColumns)
  {
  }

  /** No update column is the job reference or the submission date, so neither is ever in the patch. */
  lemma UpdateSkipsJobAndDate(patch: Fields, id: JsValue, updates: Fields)
    requires IsSparsePatch(patch, id, updates, UpdateColumns)
    ensures "job_id_c" !in patch && "submitted_date_c" !in patch
  {
    UpdateColumnsSkipJobAndDate();
  }

  /** A truthy candidate name is written, unconverted, to both name columns. */
  lemma UpdateWritesBothNames(patch: Fields, id: JsValue, updates: Fields)
    requires IsSparsePatch(patch, id, updates, UpdateColumns)
    requires IsTruthy(Get(updates, "candidateName"))
    ensures "Name" in patch && patch["Name"] == Get(updates, "candidateName")
    ensures "candidate_name_c" in patch && patch["candidate_name_c"] == Get(updates, "candidateName")
  {
    assert ColumnWritten(patch, updates, UpdateColumns[0]);
    assert ColumnWritten(patch, updates, UpdateColumns[1]);
  }

  /**
   * An update never moves an application to another job nor changes its
   * submission date: neither column is in the patch, so the stored values
   * survive; and a truthy candidate name lands in both name columns.
   */
  lemma UpdateKeepsJobAndDate(row: Fields, patch: Fields, id: JsValue, updates: Fields)
    requires IsSparsePatch(patch, id, updates, UpdateColumns)
    ensures "job_id_c" !in patch && "submitted_date_c" !in patch
    ensures Get(row + patch, "job_id_c") == Get(row, "job_id_c")
    ensures Get(row + patch, "submitted_date_c") == Get(row, "submitted_date_c")
    ensures IsTruthy(Get(updates, "candidateName")) ==>
      Get(row + patch, "Name") == Get(row + patch, "candidate_name_c") == Get(updates, "candidateName")
  {
    UpdateSkipsJobAndDate(patch, id, updates);
    if IsTruthy(Get(updates, "candidateName")) {
      UpdateWritesBothNames(patch, id, updates);
    }
  }
}
