/**
 * What the four record-proxy services share: how a call through the backend
 * client can end, the shapes of the backend's answers, and the decisions
 * every service takes on them — an empty list or null on any read failure,
 * and for create, update and delete the "first successful entry" rule.
 */
module Backend {
  import opened Js

  /**
   * How one operation's call through the backend client ends: no client
   * could be obtained, the call (or anything after it inside the `try`)
   * threw, or the backend answered.
   */
  datatype Reply<+R> = Unavailable | Raised | Answered(response: R)

  /** The answer to `fetchRecords` or `getRecordById`. */
  datatype FetchResponse = FetchResponse(success: bool, message: JsValue, data: JsValue)

  /** One per-record outcome of a create, update or delete. */
  datatype Entry = Entry(success: bool, message: JsValue, data: JsValue)

  /** The answer to `createRecord`, `updateRecord` or `deleteRecord`. */
  datatype MutationResponse = MutationResponse(success: bool, message: JsValue, results: Option<seq<Entry>>)

  /** One equality condition of a query's `where` list. */
  datatype Where = Where(fieldName: string, operator: string, values: seq<JsValue>)

  // ---------------------------------------------------------------------------
  // Read side

  /**
   * The rows a list read goes on to map: only a successful answer whose
   * `data` is a non-empty array has any. (Non-array data with a truthy
   * `length` reaches `.map`, throws, and ends in the same empty list.)
   */
  function ListedRows(reply: Reply<FetchResponse>): (rows: Option<seq<JsValue>>)
    ensures rows.Some? <==> reply.Answered? && reply.response.success
                            && reply.response.data.Arr? && |reply.response.data.elems| > 0
    ensures rows.Some? ==> rows.value == reply.response.data.elems && |rows.value| > 0
  {
    if reply.Answered? && reply.response.success && reply.response.data.Arr? && |reply.response.data.elems| > 0
    then Some(reply.response.data.elems)
    else None
  }

  /** Maps every row in order; None when the callback throws on one of them. */
  function MapRows<T>(rows: seq<JsValue>, f: JsValue -> Option<T>): (r: Option<seq<T>>)
    ensures r.Some? <==> forall i :: 0 <= i < |rows| ==> f(rows[i]).Some?
    ensures r.Some? ==> |r.value| == |rows| && forall i :: 0 <= i < |rows| ==> f(rows[i]) == Some(r.value[i])
    decreases |rows|
  {
    if |rows| == 0 then Some([])
    else
      var head := f(rows[0]);
      var tail := MapRows(rows[1..], f);
      if head.Some? && tail.Some? then
        assert forall i :: 1 <= i < |rows| ==> rows[i] == rows[1..][i - 1];
        Some([head.value] + tail.value)
      else
        assert tail.None? ==> exists j :: 0 <= j < |rows| - 1 && !f(rows[1..][j]).Some?;
        assert forall j :: 0 <= j < |rows| - 1 ==> rows[1..][j] == rows[j + 1];
        None
  }

  /**
   * A list read (`getAll`, `getByEmployerId`, `getByJobId`): every row
   * mapped in order, or [] when there is no client, the call throws, the
   * backend reports failure, there are no rows, or mapping a row throws.
   */
  function ReadList<T>(reply: Reply<FetchResponse>, f: JsValue -> Option<T>): (r: seq<T>)
    ensures ListedRows(reply).None? ==> r == []
    ensures ListedRows(reply).Some? ==>
      var rows := ListedRows(reply).value;
      if forall i :: 0 <= i < |rows| ==> f(rows[i]).Some?
      then |r| == |rows| && forall i :: 0 <= i < |rows| ==> f(rows[i]) == Some(r[i])
      else r == []
  {
    match ListedRows(reply)
    case None => []
    case Some(rows) =>
      match MapRows(rows, f)
      case None => []
      case Some(xs) => xs
  }

  /** A read by id (`getById`): the mapped record, or null on failure or falsy data. */
  function ReadOne<T>(reply: Reply<FetchResponse>, f: JsValue -> Option<T>): (r: Option<T>)
    ensures r.Some? ==> reply.Answered? && reply.response.success && IsTruthy(reply.response.data)
    ensures reply.Answered? && reply.response.success && IsTruthy(reply.response.data) ==> r == f(reply.response.data)
  {
    if reply.Answered? && reply.response.success && IsTruthy(reply.response.data)
    then f(reply.response.data)
    else None
  }

  /** `out` is `stored || fallback`: the stored value when it is truthy, the default otherwise. */
  predicate Defaulted(out: JsValue, stored: JsValue, fallback: JsValue) {
    (IsTruthy(stored) ==> out == stored) && (!IsTruthy(stored) ==> out == fallback)
  }

  /**
   * A reference column read as a string id, `ref?.Id ? ref.Id.toString() : ""`:
   * the backend returns a lookup column as an object carrying the `Id`.
   */
  function ReferenceId(ref: JsValue): (r: JsValue)
    ensures r.Str?
    ensures IsTruthy(Prop(ref, "Id")) ==> r == Str(ToJsString(Prop(ref, "Id")))
    ensures !IsTruthy(Prop(ref, "Id")) ==> r == Str("")
  {
    var id := Prop(ref, "Id");
    if IsTruthy(id) then Str(ToJsString(id)) else Str("")
  }

  /** A numeric reference comes back as its numeral, and parses back to itself; Id 0 gives "". */
  lemma ReferenceIdOfNumber(n: int)
    ensures n == 0 ==> ReferenceId(Obj(map["Id" := Num(n)])) == Str("")
    ensures n != 0 ==> ReferenceId(Obj(map["Id" := Num(n)])) == Str(Decimal(n))
    ensures n != 0 ==> ParseInt(ReferenceId(Obj(map["Id" := Num(n)]))) == Num(n)
  {
    ParseIntOfNumber(n);
  }

  /**
   * The one condition `getByJobId`, `isJobSaved` and `deleteSavedJob` send:
   * the job column equal to `parseInt(jobId)`.
   */
  function JobIdFilter(jobId: JsValue): (w: Where)
    ensures w.fieldName == "job_id_c" && w.operator == "EqualTo"
    ensures |w.values| == 1 && (w.values[0].Num? || w.values[0].NaN?)
    ensures jobId.Num? ==> w.values == [jobId]
  {
    Where("job_id_c", "EqualTo", [ParseInt(jobId)])
  }

  // ---------------------------------------------------------------------------
  // Mutation side: `results.filter(r => r.success)` and `!r.success`

  function Successful(rs: seq<Entry>): (s: seq<Entry>)
    ensures |s| <= |rs|
    ensures forall i :: 0 <= i < |s| ==> s[i].success && s[i] in rs
    decreases |rs|
  {
    if |rs| == 0 then []
    else if rs[0].success then [rs[0]] + Successful(rs[1..])
    else Successful(rs[1..])
  }

  function Failed(rs: seq<Entry>): (f: seq<Entry>)
    ensures |f| <= |rs|
    ensures forall i :: 0 <= i < |f| ==> !f[i].success && f[i] in rs
    decreases |rs|
  {
    if |rs| == 0 then []
    else if !rs[0].success then [rs[0]] + Failed(rs[1..])
    else Failed(rs[1..])
  }

  /** The two filters split the entries: each entry lands in exactly one of them. */
  lemma {:induction false} PartitionSizes(rs: seq<Entry>)
    ensures |Successful(rs)| + |Failed(rs)| == |rs|
    ensures multiset(Successful(rs)) + multiset(Failed(rs)) == multiset(rs)
    decreases |rs|
  {
    if |rs| > 0 {
      PartitionSizes(rs[1..]);
      assert rs == [rs[0]] + rs[1..];
    }
  }

  /** Entry `k` is the first successful one. */
  predicate FirstSuccessAt(rs: seq<Entry>, k: int) {
    0 <= k < |rs| && rs[k].success && forall j :: 0 <= j < k ==> !rs[j].success
  }

  predicate AnySuccess(rs: seq<Entry>) {
    exists k :: 0 <= k < |rs| && rs[k].success
  }

  /** `successful[0]` exists exactly when some entry succeeded, and it is the first such entry. */
  lemma {:induction false} FirstSuccessful(rs: seq<Entry>)
    ensures |Successful(rs)| > 0 <==> AnySuccess(rs)
    ensures forall k :: FirstSuccessAt(rs, k) ==> Successful(rs)[0] == rs[k]
    decreases |rs|
  {
    if |rs| > 0 {
      FirstSuccessful(rs[1..]);
      if !rs[0].success {
        if AnySuccess(rs) {
          var k :| 0 <= k < |rs| && rs[k].success;
          assert rs[1..][k - 1].success;
        }
        forall k | FirstSuccessAt(rs, k) ensures Successful(rs)[0] == rs[k] {
          assert FirstSuccessAt(rs[1..], k - 1);
        }
      }
    }
  }

  /** The backend accepted the call and at least one of its per-record results succeeded. */
  predicate Succeeded(reply: Reply<MutationResponse>) {
    reply.Answered? && reply.response.success && reply.response.results.Some?
    && AnySuccess(reply.response.results.value)
  }

  /**
   * What `create` and `update` return: the `data` of the first successful
   * result entry, and null in every other case (no client, a throw,
   * `success` false, no `results`, or no entry succeeded).
   */
  function MutationValue(reply: Reply<MutationResponse>): (r: JsValue)
    ensures !Succeeded(reply) ==> r == Null
    ensures forall k :: Succeeded(reply) && FirstSuccessAt(reply.response.results.value, k) ==>
      r == reply.response.results.value[k].data
  {
    if reply.Answered? && reply.response.success && reply.response.results.Some? then
      var rs := reply.response.results.value;
      FirstSuccessful(rs);
      var ok := Successful(rs);
      if |ok| > 0 then ok[0].data else Null
    else Null
  }

  /** What `delete` returns: true exactly when some result entry succeeded. */
  function DeleteValue(reply: Reply<MutationResponse>): (r: bool)
    ensures r <==> Succeeded(reply)
  {
    if reply.Answered? && reply.response.success && reply.response.results.Some? then
      FirstSuccessful(reply.response.results.value);
      |Successful(reply.response.results.value)| > 0
    else false
  }

  /**
   * The messages shown one by one for the failed entries
   * (`failed.forEach(record => { if (record.message) toast.error(...) })`).
   */
  function FailureNotices(rs: seq<Entry>): (notices: seq<JsValue>)
    ensures |notices| <= |Failed(rs)|
    ensures forall i :: 0 <= i < |notices| ==> IsTruthy(notices[i])
    ensures forall i :: 0 <= i < |rs| && !rs[i].success && IsTruthy(rs[i].message) ==> rs[i].message in notices
    ensures forall i :: 0 <= i < |notices| ==> exists j :: 0 <= j < |rs| && !rs[j].success && rs[j].message == notices[i]
    decreases |rs|
  {
    if |rs| == 0 then []
    else
      var rest := FailureNotices(rs[1..]);
      assert forall i :: 1 <= i < |rs| ==> rs[i] == rs[1..][i - 1];
      if !rs[0].success && IsTruthy(rs[0].message) then [rs[0].message] + rest else rest
  }

  /** The notices follow the order of the entries: those of a concatenation are concatenated. */
  lemma {:induction false} FailureNoticesAppend(a: seq<Entry>, b: seq<Entry>)
    ensures FailureNotices(a + b) == FailureNotices(a) + FailureNotices(b)
    decreases |a|
  {
    if |a| > 0 {
      assert (a + b)[0] == a[0];
      assert (a + b)[1..] == a[1..] + b;
      FailureNoticesAppend(a[1..], b);
    } else {
      assert a + b == b;
    }
  }

  /** Only the failed entries matter: the notices are those of `failed`, in the same order. */
  lemma {:induction false} FailureNoticesOfFailed(rs: seq<Entry>)
    ensures FailureNotices(rs) == FailureNotices(Failed(rs))
    decreases |rs|
  {
    if |rs| > 0 {
      FailureNoticesOfFailed(rs[1..]);
      if !rs[0].success {
        var f := [rs[0]] + Failed(rs[1..]);
        assert f[0] == rs[0] && f[1..] == Failed(rs[1..]);
      }
    }
  }

  /** A batch with a success returns that success even when other entries failed. */
  lemma PartialFailureStillReturns(ok: Entry, failures: seq<Entry>)
    requires ok.success
    requires forall i :: 0 <= i < |failures| ==> !failures[i].success
    ensures MutationValue(Answered(MutationResponse(true, Undefined, Some(failures + [ok])))) == ok.data
    ensures DeleteValue(Answered(MutationResponse(true, Undefined, Some(failures + [ok]))))
  {
    assert FirstSuccessAt(failures + [ok], |failures|);
  }

  // ---------------------------------------------------------------------------
  // Update patches

  /** How an update value is turned into the column value sent. */
  datatype Conversion = AsIs | ToInt | JoinLines

  /** An update input key, the backend column it is written to, and the conversion on the way. */
  datatype Column = Column(input: string, name: string, conversion: Conversion)

  /** `Array.isArray(v) ? v.join('\n') : v` */
  function JoinIfArray(v: JsValue): (r: JsValue)
    ensures v.Arr? ==> r == Str(ArrayJoin(v.elems, "\n"))
    ensures !v.Arr? ==> r == v
  {
    if v.Arr? then Str(ArrayJoin(v.elems, "\n")) else v
  }

  function Convert(c: Conversion, v: JsValue): JsValue {
    match c
    case AsIs => v
    case ToInt => ParseInt(v)
    case JoinLines => JoinIfArray(v)
  }

  function ColumnNames(columns: seq<Column>): set<string> {
    set i | 0 <= i < |columns| :: columns[i].name
  }

  /**
   * The sparse patch an `update(id, updates)` sends, stated over the
   * service's column table: `Id` is always `parseInt(id)`; a column is
   * present exactly when its input value is truthy, and then holds the
   * converted value; no other key appears.
   */
  ghost predicate IsSparsePatch(patch: Fields, id: JsValue, updates: Fields, columns: seq<Column>) {
    && patch.Keys <= {"Id"} + ColumnNames(columns)
    && "Id" in patch && patch["Id"] == ParseInt(id)
    && forall i :: 0 <= i < |columns| ==> ColumnWritten(patch, updates, columns[i])
  }

  /** The column is in the patch exactly when its update value is truthy, and then holds the converted value. */
  predicate ColumnWritten(patch: Fields, updates: Fields, c: Column) {
    var v := Get(updates, c.input);
    && (c.name in patch <==> IsTruthy(v))
    && (c.name in patch ==> patch[c.name] == Convert(c.conversion, v))
  }

  /** Column names are pairwise different and none of them is `Id`. */
  predicate DistinctNames(columns: seq<Column>) {
    && (forall i :: 0 <= i < |columns| ==> columns[i].name != "Id")
    && (forall i, j :: 0 <= i < j < |columns| ==> columns[i].name != columns[j].name)
  }

  /** One `if (updates.x) updateData.col = convert(updates.x)` step. */
  function WriteColumn(patch: Fields, updates: Fields, c: Column): (r: Fields)
    ensures c.name !in patch ==> ColumnWritten(r, updates, c)
    ensures forall key :: key != c.name ==> (key in r <==> key in patch)
    ensures forall key :: key != c.name && key in patch ==> r[key] == patch[key]
  {
    var v := Get(updates, c.input);
    if IsTruthy(v) then patch[c.name := Convert(c.conversion, v)] else patch
  }

  /** The patch after the first `k` steps of the table. */
  ghost predicate PatchPrefix(patch: Fields, id: JsValue, updates: Fields, columns: seq<Column>, k: nat) {
    && k <= |columns|
    && (forall key :: key in patch ==> key == "Id" || exists i :: 0 <= i < k && columns[i].name == key)
    && "Id" in patch && patch["Id"] == ParseInt(id)
    && forall i :: 0 <= i < k ==> ColumnWritten(patch, updates, columns[i])
  }

  lemma StartPatch(id: JsValue, updates: Fields, columns: seq<Column>)
    ensures PatchPrefix(map["Id" := ParseInt(id)], id, updates, columns, 0)
  {
  }

  /** Taking one more step of the table keeps the earlier columns and writes the next one. */
  lemma WroteColumn(before: Fields, after: Fields, id: JsValue, updates: Fields, columns: seq<Column>, k: nat)
    requires DistinctNames(columns)
    requires PatchPrefix(before, id, updates, columns, k)
    requires k < |columns|
    requires after == WriteColumn(before, updates, columns[k])
    ensures PatchPrefix(after, id, updates, columns, k + 1)
  {
    var c := columns[k];
    assert forall i :: 0 <= i < k ==> columns[i].name != c.name;
    forall i | 0 <= i < k
      ensures ColumnWritten(after, updates, columns[i])
    {
      assert columns[i].name != c.name;
    }
  }

  /** Once every step of the table has been taken, the patch is the sparse patch. */
  lemma FinishPatch(patch: Fields, id: JsValue, updates: Fields, columns: seq<Column>)
    requires PatchPrefix(patch, id, updates, columns, |columns|)
    ensures IsSparsePatch(patch, id, updates, columns)
  {
    forall key | key in patch
      ensures key in {"Id"} + ColumnNames(columns)
    {
      if key != "Id" {
        var i :| 0 <= i < |columns| && columns[i].name == key;
      }
    }
  }

  /**
   * `update(id, updates)`'s `updateData`: `{Id: parseInt(id)}`, then one
   * `if (updates.x) updateData.col = ...` per column of the table, in order.
   */
  method BuildPatch(id: JsValue, updates: Fields, columns: seq<Column>) returns (patch: Fields)
    requires DistinctNames(columns)
    ensures IsSparsePatch(patch, id, updates, columns)
  {
    patch := map["Id" := ParseInt(id)];
    StartPatch(id, updates, columns);
    for k := 0 to |columns|
      invariant PatchPrefix(patch, id, updates, columns, k)
    {
      ghost var before := patch;
      patch := WriteColumn(patch, updates, columns[k]);
      WroteColumn(before, patch, id, updates, columns, k);
    }
    FinishPatch(patch, id, updates, columns);
  }

  /**
   * Applied to a stored row (the patch's keys overwrite), a sparse patch
   * leaves every column whose update value is falsy as it was, writes the
   * converted value into every other column of the table, and touches no
   * column outside the table.
   */
  lemma PatchEffect(row: Fields, patch: Fields, id: JsValue, updates: Fields, columns: seq<Column>, name: string)
    requires IsSparsePatch(patch, id, updates, columns)
    requires name != "Id"
    ensures name !in ColumnNames(columns) ==> Get(row + patch, name) == Get(row, name)
    ensures forall i :: 0 <= i < |columns| && columns[i].name == name ==>
      var v := Get(updates, columns[i].input);
      Get(row + patch, name) == if IsTruthy(v) then Convert(columns[i].conversion, v) else Get(row, name)
  {
  }

  // ---------------------------------------------------------------------------
  // What the backend keeps (an assumption about the hosted service)

  /**
   * The row a backend holds for a created record, as a later read returns
   * it: the payload's fields plus the assigned `Id`, with every lookup
   * column (a reference to another table) returned as an object carrying
   * the referenced `Id`.
   */
  function StoredRow(record: Fields, id: int, lookups: set<string>): (row: JsValue)
    ensures row.Obj? && row.fields.Keys == record.Keys + {"Id"}
    ensures Prop(row, "Id") == Num(id)
    ensures forall k :: k in record && k != "Id" && k !in lookups ==> Prop(row, k) == record[k]
    ensures forall k :: k in record && k != "Id" && k in lookups ==> Prop(row, k) == Obj(map["Id" := record[k]])
  {
    Obj((map k | k in record :: if k in lookups then Obj(map["Id" := record[k]]) else record[k])["Id" := Num(id)])
  }
}
