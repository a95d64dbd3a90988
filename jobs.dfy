/**
 * The job service (table `job_c`): the row-to-job mapping with its
 * newline-separated requirement and benefit lists, the record `create`
 * submits (lists joined with newlines), and the sparse patch `update` sends.
 */
module Jobs {
  import opened Js
  import opened Backend

  const TableName := "job_c"

  /** A job posting as the application sees it; the two lists are arrays of lines. */
  datatype Job = Job(
    id: JsValue,
    title: JsValue,
    company: JsValue,
    location: JsValue,
    jobType: JsValue,
    experienceLevel: JsValue,
    industry: JsValue,
    salaryRange: JsValue,
    description: JsValue,
    requirements: seq<string>,
    benefits: seq<string>,
    status: JsValue,
    postedDate: JsValue)

  /**
   * `stored ? stored.split('\n').filter(r => r.trim()) : []`: no lines for
   * a falsy column, the non-blank lines of a string, and a throw (None) for
   * any other truthy value, which has no `split`.
   */
  function ParseList(stored: JsValue): (r: Option<seq<string>>)
    ensures !IsTruthy(stored) ==> r == Some([])
    ensures IsTruthy(stored) && stored.Str? ==> r == Some(NonBlank(Split(stored.s, '\n')))
    ensures IsTruthy(stored) && !stored.Str? ==> r.None?
    ensures r.Some? ==> forall i :: 0 <= i < |r.value| ==> !IsBlank(r.value[i])
  {
    if !IsTruthy(stored) then Some([])
    else if stored.Str? then
      var kept := NonBlank(Split(stored.s, '\n'));
      assert forall i :: 0 <= i < |kept| ==> !IsBlank(kept[i]) by {
        forall i | 0 <= i < |kept| ensures !IsBlank(kept[i]) {
          TrimEmptyIffBlank(kept[i]);
        }
      }
      Some(kept)
    else None
  }

  /**
   * The job one backend row maps to, or None when reading a list column
   * throws: text fields fall back to "", the status to "active", a missing
   * posting date reads as the current time.
   */
  function ToJob(row: JsValue, now: string): (r: Option<Job>)
    ensures r.Some? <==> ParseList(Prop(row, "requirements_c")).Some? && ParseList(Prop(row, "benefits_c")).Some?
    ensures r.Some? ==>
      && r.value.id == Prop(row, "Id")
      && Defaulted(r.value.title, Prop(row, "title_c"), Str(""))
      && Defaulted(r.value.company, Prop(row, "company_c"), Str(""))
      && Defaulted(r.value.location, Prop(row, "location_c"), Str(""))
      && Defaulted(r.value.jobType, Prop(row, "job_type_c"), Str(""))
      && Defaulted(r.value.experienceLevel, Prop(row, "experience_level_c"), Str(""))
      && Defaulted(r.value.industry, Prop(row, "industry_c"), Str(""))
      && Defaulted(r.value.salaryRange, Prop(row, "salary_range_c"), Str(""))
      && Defaulted(r.value.description, Prop(row, "description_c"), Str(""))
      && Some(r.value.requirements) == ParseList(Prop(row, "requirements_c"))
      && Some(r.value.benefits) == ParseList(Prop(row, "benefits_c"))
      && Defaulted(r.value.status, Prop(row, "status_c"), Str("active"))
      && Defaulted(r.value.postedDate, Prop(row, "posted_date_c"), Str(now))
  {
    match (ParseList(Prop(row, "requirements_c")), ParseList(Prop(row, "benefits_c")))
    case (Some(requirements), Some(benefits)) =>
      Some(Job(
        Prop(row, "Id"),
        Or(Prop(row, "title_c"), Str("")),
        Or(Prop(row, "company_c"), Str("")),
        Or(Prop(row, "location_c"), Str("")),
        Or(Prop(row, "job_type_c"), Str("")),
        Or(Prop(row, "experience_level_c"), Str("")),
        Or(Prop(row, "industry_c"), Str("")),
        Or(Prop(row, "salary_range_c"), Str("")),
        Or(Prop(row, "description_c"), Str("")),
        requirements,
        benefits,
        Or(Prop(row, "status_c"), Str("active")),
        Or(Prop(row, "posted_date_c"), Str(now))))
    case _ => None
  }

  /** The `.map` callback: a null or undefined row throws, and so does a bad list column. */
  function MapRow(row: JsValue, now: string): Option<Job> {
    if IsNullish(row) then None else ToJob(row, now)
  }

  /** `getAll()`: every listed row mapped, or [] (also when one row throws). */
  function ReadJobs(reply: Reply<FetchResponse>, now: string): (r: seq<Job>)
    ensures ListedRows(reply).None? ==> r == []
    ensures ListedRows(reply).Some? ==>
      var rows := ListedRows(reply).value;
      if forall i :: 0 <= i < |rows| ==> MapRow(rows[i], now).Some?
      then |r| == |rows| && forall i :: 0 <= i < |rows| ==> Some(r[i]) == ToJob(rows[i], now)
      else r == []
  {
    ReadList(reply, row => MapRow(row, now))
  }

  /** `getById(id)`: the mapped job, or null (also when the mapping throws). */
  function GetById(reply: Reply<FetchResponse>, now: string): (r: Option<Job>)
    ensures r.Some? ==> reply.Answered? && reply.response.success && IsTruthy(reply.response.data)
    ensures reply.Answered? && reply.response.success && IsTruthy(reply.response.data) ==>
      r == ToJob(reply.response.data, now)
  {
    ReadOne(reply, row => ToJob(row, now))
  }

  /** A JavaScript array of strings. */
  function Strings(xs: seq<string>): JsValue {
    Arr(seq(|xs|, i requires 0 <= i < |xs| => Str(xs[i])))
  }

  /** The properties of `jobData` that `create` reads; an absent one is undefined. */
  datatype JobData = JobData(
    title: JsValue,
    company: JsValue,
    location: JsValue,
    jobType: JsValue,
    experienceLevel: JsValue,
    industry: JsValue,
    salaryRange: JsValue,
    description: JsValue,
    requirements: JsValue,
    benefits: JsValue,
    status: JsValue)

  /**
   * The one record `create(jobData)` submits: the title both as the record
   * `Name` and in its own column, array lists joined with newlines (any
   * other value sent as it is), status "active" unless one is given, and
   * the posting time.
   */
  function CreateRecord(d: JobData, now: string): (record: Fields)
    ensures record.Keys == {"Name", "title_c", "company_c", "location_c", "job_type_c", "experience_level_c",
                            "industry_c", "salary_range_c", "description_c", "requirements_c", "benefits_c",
                            "status_c", "posted_date_c"}
    ensures record["Name"] == record["title_c"] == d.title
    ensures record["company_c"] == d.company
    ensures record["location_c"] == d.location
    ensures record["job_type_c"] == d.jobType
    ensures record["experience_level_c"] == d.experienceLevel
    ensures record["industry_c"] == d.industry
    ensures record["salary_range_c"] == d.salaryRange
    ensures record["description_c"] == d.description
    ensures record["requirements_c"] == JoinIfArray(d.requirements)
    ensures record["benefits_c"] == JoinIfArray(d.benefits)
    ensures Defaulted(record["status_c"], d.status, Str("active"))
    ensures record["posted_date_c"] == Str(now)
  {
    map[
      "Name" := d.title,
      "title_c" := d.title,
      "company_c" := d.company,
      "location_c" := d.location,
      "job_type_c" := d.jobType,
      "experience_level_c" := d.experienceLevel,
      "industry_c" := d.industry,
      "salary_range_c" := d.salaryRange,
      "description_c" := d.description,
      "requirements_c" := JoinIfArray(d.requirements),
      "benefits_c" := JoinIfArray(d.benefits),
      "status_c" := Or(d.status, Str("active")),
      "posted_date_c" := Str(now)]
  }

  /** A list the newline encoding can carry: no line contains '\n' or is white space only. */
  predicate Storable(xs: seq<string>) {
    forall i :: 0 <= i < |xs| ==> '\n' !in xs[i] && !IsBlank(xs[i])
  }

  /** Joining an array of strings is joining the strings. */
  lemma JoinStrings(xs: seq<string>)
    ensures ArrayJoin(Strings(xs).elems, "\n") == Join(xs, "\n")
  {
    var es := Strings(xs).elems;
    assert seq(|es|, i requires 0 <= i < |es| => if IsNullish(es[i]) then "" else ToJsString(es[i])) == xs;
  }

  /** A join of lines whose first line is not blank is not empty. */
  lemma {:induction false} JoinNotEmpty(xs: seq<string>, sep: string)
    requires |xs| > 0 && !IsBlank(xs[0])
    ensures Join(xs, sep) != ""
  {
    assert xs[0] != "";
    if |xs| > 1 {
      assert Join(xs, sep)[..|xs[0]|] == xs[0];
    }
  }

  /**
   * The list round trip: a storable list joined at create time and parsed
   * at read time comes back unchanged (an empty list travels as "", which
   * is falsy and reads back as []).
   */
  lemma ListRoundTrip(xs: seq<string>)
    requires Storable(xs)
    ensures ParseList(JoinIfArray(Strings(xs))) == Some(xs)
  {
    JoinStrings(xs);
    if |xs| > 0 {
      JoinNotEmpty(xs, "\n");
      SplitJoin(xs, '\n');
      NonBlankKeepsAll(xs);
    }
  }

  /**
   * Creating a job with storable lists and reading its row back gives the
   * input with the documented defaults, the same lists, and the creation
   * time as the posting date.
   */
  lemma CreateThenRead(d: JobData, now: string, id: int, later: string, requirements: seq<string>, benefits: seq<string>)
    requires now != ""
    requires d.requirements == Strings(requirements) && Storable(requirements)
    requires d.benefits == Strings(benefits) && Storable(benefits)
    ensures var r := ToJob(StoredRow(CreateRecord(d, now), id, {}), later);
      && r.Some?
      && r.value.id == Num(id)
      && r.value.title == Or(d.title, Str(""))
      && r.value.company == Or(d.company, Str(""))
      && r.value.location == Or(d.location, Str(""))
      && r.value.jobType == Or(d.jobType, Str(""))
      && r.value.experienceLevel == Or(d.experienceLevel, Str(""))
      && r.value.industry == Or(d.industry, Str(""))
      && r.value.salaryRange == Or(d.salaryRange, Str(""))
      && r.value.description == Or(d.description, Str(""))
      && r.value.requirements == requirements
      && r.value.benefits == benefits
      && r.value.status == Or(d.status, Str("active"))
      && r.value.postedDate == Str(now)
  {
    var record := CreateRecord(d, now);
    var row := StoredRow(record, id, {});
    ListRoundTrip(requirements);
    ListRoundTrip(benefits);
    assert Prop(row, "requirements_c") == JoinIfArray(Strings(requirements));
    assert Prop(row, "benefits_c") == JoinIfArray(Strings(benefits));
  }

  /** The columns `update` may write; a truthy title writes two of them. */
  const UpdateColumns: seq<Column> := [
    Column("title", "Name", AsIs),
    Column("title", "title_c", AsIs),
    Column("company", "company_c", AsIs),
    Column("location", "location_c", AsIs),
    Column("jobType", "job_type_c", AsIs),
    Column("experienceLevel", "experience_level_c", AsIs),
    Column("industry", "industry_c", AsIs),
    Column("salaryRange", "salary_range_c", AsIs),
    Column("description", "description_c", AsIs),
    Column("requirements", "requirements_c", JoinLines),
    Column("benefits", "benefits_c", JoinLines),
    Column("status", "status_c", AsIs)]

  /** `update(id, updates)` builds `updateData` one truthy field at a time. */
  method UpdatePatch(id: JsValue, updates: Fields) returns (patch: Fields)
    ensures IsSparsePatch(patch, id, updates, UpdateColumns)
  {
    assert DistinctNames(UpdateColumns);
    patch := BuildPatch(id, updates, UpdateColumns);
  }

  /** The requirements column of an update patch whose requirements input is an empty array. */
  lemma EmptyListSent(patch: Fields, id: JsValue, updates: Fields)
    requires IsSparsePatch(patch, id, updates, UpdateColumns)
    requires Get(updates, "requirements") == Arr([])
    ensures "requirements_c" in patch && patch["requirements_c"] == Str("")
  {
    assert ColumnWritten(patch, updates, UpdateColumns[9]);
  }

  /**
   * An empty array is truthy, so `requirements: []` in an update is sent
   * as "" and the job then reads back with no requirements at all.
   */
  lemma UpdateWithEmptyList(row: Fields, patch: Fields, id: JsValue, updates: Fields)
    requires IsSparsePatch(patch, id, updates, UpdateColumns)
    requires Get(updates, "requirements") == Arr([])
    ensures "requirements_c" in patch && patch["requirements_c"] == Str("")
    ensures ParseList(Get(row + patch, "requirements_c")) == Some([])
  {
    EmptyListSent(patch, id, updates);
    assert Get(row + patch, "requirements_c") == Str("");
  }
}
