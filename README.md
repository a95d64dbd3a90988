# Job board record-proxy services and route table, in Dafny

A model of the data-access layer of a single-page job-board application and
of its route construction. The layer has four record-proxy services:

- jobs (`job_c`);
- applications (`application_c`);
- saved jobs (`saved_job_c`);
- shortlist requests (`shortlist_request_c`).

Each service translates between the application's field names and the
columns of a hosted record store, and turns every backend outcome into a
safe return value: an empty list, null or false. The route module builds
each route object from its props and an access table.

Module layout:

- `js.dfy` (`Js`): the JavaScript values the services handle and the
  built-ins they rely on. These are truthiness and `||`, optional chaining,
  ToString, `parseInt` with no radix, `split` on one character, `join` and
  `trim`.
- `backend.dfy` (`Backend`): what the four services share. It covers:
  - how a call ends (no client, a throw, or an answer);
  - the list and by-id read decisions;
  - the "first successful result entry" rule of create, update and delete;
  - the per-entry failure notices;
  - the sparse update patch, stated over a column table;
  - the row a created record becomes, which is an assumption about the
    hosted store.
- `shortlist.dfy`, `applications.dfy`, `jobs.dfy` (`Shortlist`,
  `Applications`, `Jobs`): each service's row mapping, filter, create
  payload and update patch. Each comes with a create-then-read round trip.
  Applications and jobs also have lemmas on the effect of an update. For
  shortlist requests that effect is `Backend.PatchEffect` over
  `Shortlist.UpdateColumns`.
- `saved_jobs.dfy` (`SavedJobs`): the row mapping, plus `SavedJobStore`.
  That class is a sequential stand-in for the saved-jobs table, and it keeps
  the rows and a trace of the calls it receives. Against it:
  - `create` is modelled as check-then-insert;
  - `deleteSavedJob` is modelled as find-then-delete-by-own-id;
  - three client scenarios are proved (`SaveTwice`,
    `SaveAgainUnchecked`, `SaveThenDelete`).
- `router.dfy` (`Router`): `createRoute` and the two route tables. The
  access table (`getRouteConfig`) is a function parameter.

Three behaviours of the code worth knowing:

- **Sort order.** Lists are sorted only by the `orderBy` the query asks
  for. The services do not sort themselves, so the model carries no sort
  property.
- **Saved-job pre-check.** When the backend rejects the pre-existence
  check, or the check throws, `isJobSaved` answers false. `create` then
  still attempts the insert rather than stopping, so an already saved job
  can be stored a second time (`SavedJobs.SavedJobStore.Create`,
  `SavedJobs.SaveAgainUnchecked`).
- **Missing id on delete.** Deleting a saved job first looks the job up.
  When that find fails or finds nothing, `deleteSavedJob` returns false
  before any delete call is made (savedJobsService.js:199-201, proved in
  `SavedJobs.SavedJobStore.DeleteSavedJob`). For jobs, applications and
  shortlist requests, `delete(id)` sends `parseInt(id)` without looking
  the record up first (shortlistService.js:296, applicationService.js:298,
  jobService.js:272). A missing id therefore returns false only because the
  backend reports no successful entry.
  That depends on the backend's answer, which `Backend.DeleteValue` takes
  as input.

## Model

| member | source | states |
|---|---|---|
| Js.ParseIntConvertsFirst | src/services/api/shortlistService.js:185 | `parseInt` of any value equals parsing that value's ToString: a number's numeral parses back to it, and undefined, null, booleans and objects give NaN |
| Js.ParseIntOfNumber | src/services/api/applicationService.js:137 | the decimal numeral of any integer parses back to that integer, so a string id produced from a numeric reference survives `parseInt` |
| Js.SplitJoin | src/services/api/jobService.js:59 | splitting on '\n' the '\n'-join of a non-empty list of pieces without '\n' gives back exactly those pieces |
| Js.ParseInt | src/services/api/shortlistService.js:185 | `parseInt(v)` always gives a number or NaN: a number is kept, a string or array is parsed from its text, anything else gives NaN |
| Js.ArrayJoin | src/services/api/jobService.js:149 | `join(sep)` of no elements is ""; of one element it is that element's string, or "" for null and undefined |
| Js.Split | src/services/api/jobService.js:59 | `split('\n')` always gives at least one piece, and no piece contains the separator |
| Js.JoinSplit | src/services/api/jobService.js:59 | joining the pieces of a split with the separator gives back the text |
| Js.Trim | src/services/api/jobService.js:59 | `trim()` gives text no longer than the input that neither starts nor ends with white space |
| Js.NonBlank | src/services/api/jobService.js:59 | `filter(r => r.trim())` keeps exactly the lines that are not all white space: each kept line comes from the input, and every such input line is kept |
| Js.NonBlankAppend | src/services/api/jobService.js:59 | the filter keeps order: filtering a concatenation is the concatenation of the filtered parts |
| Js.NonBlankKeepsAll | src/services/api/jobService.js:59 | the filter drops nothing from a list none of whose lines is blank |
| Js.TrimEmptyIffBlank | src/services/api/jobService.js:59 | `trim()` gives "" exactly when the line is all white space (both directions) |
| Backend.ListedRows | src/services/api/shortlistService.js:35-43 | rows are mapped exactly when the answer succeeded with a non-empty `data` array, and they are that array's elements |
| Backend.MapRows | src/services/api/shortlistService.js:45-55 | `.map` succeeds exactly when the callback succeeds on every row, and then gives one result per row, in order |
| Backend.ReadList | src/services/api/shortlistService.js:33-59 | a list read returns every row mapped in order, and [] on no client, a throw, a failure answer, no rows, or a row the mapping throws on |
| Backend.ReadOne | src/services/api/shortlistService.js:84-110 | a read by id returns the mapped record exactly when the answer succeeded with truthy data, and null otherwise |
| Backend.ReferenceId | src/services/api/shortlistService.js:48 | a lookup reads as the string of its truthy `Id`, and as "" when the `Id` is missing or falsy |
| Backend.ReferenceIdOfNumber | src/services/api/shortlistService.js:48 | a lookup holding a non-zero numeric Id reads as that Id's numeral, which `parseInt` maps back to the Id; Id 0 reads as "" |
| Backend.Successful | src/services/api/shortlistService.js:204 | the successful filter keeps only successful entries, each taken from the results |
| Backend.Failed | src/services/api/shortlistService.js:205 | the failed filter keeps only failed entries, each taken from the results |
| Backend.PartitionSizes | src/services/api/shortlistService.js:204-205 | the two filters partition the results: sizes add up and the multisets add up to the results |
| Backend.FirstSuccessful | src/services/api/shortlistService.js:214-216 | `successful[0]` exists exactly when some entry succeeded, and it is the first successful entry in result order |
| Backend.MutationValue | src/services/api/shortlistService.js:195-225 | create and update return the `data` of the first successful entry when the call succeeded and some entry did; null in every other case |
| Backend.DeleteValue | src/services/api/shortlistService.js:299-329 | delete returns true exactly when the call succeeded and some result entry succeeded |
| Backend.FailureNotices | src/services/api/shortlistService.js:207-212 | every truthy message of a failed entry is shown, and every notice shown is the truthy message of some failed entry |
| Backend.FailureNoticesAppend | src/services/api/shortlistService.js:209-211 | notices follow the order of the entries: those of a concatenation are concatenated |
| Backend.FailureNoticesOfFailed | src/services/api/shortlistService.js:205-211 | the notices are exactly those of the `failed` list, in its order |
| Backend.PartialFailureStillReturns | src/services/api/shortlistService.js:203-217 | a batch where failures precede a success still returns that success's data, and delete still reports true |
| Backend.JoinIfArray | src/services/api/jobService.js:149 | an array is sent as its elements joined by '\n'; any other value is sent unchanged |
| Backend.WriteColumn | src/services/api/shortlistService.js:241 | one `if (updates.x) updateData.col = ...` step writes the column exactly when the input is truthy, with the converted value; every other key keeps its presence and its value |
| Backend.StartPatch | src/services/api/shortlistService.js:237-239 | the patch starts as `{Id: parseInt(id)}` with no column written |
| Backend.WroteColumn | src/services/api/shortlistService.js:241-247 | each further step keeps every earlier column as written and writes the next one correctly |
| Backend.FinishPatch | src/services/api/shortlistService.js:237-247 | after every step the patch holds `Id`, plus exactly the columns whose inputs are truthy, with converted values, and no other key |
| Backend.BuildPatch | src/services/api/shortlistService.js:237-247 | building `updateData` one column after another, for any table of distinct column names, gives the sparse patch |
| Backend.JobIdFilter | src/services/api/applicationService.js:133-139 | `getByJobId`, and likewise `isJobSaved` and `deleteSavedJob` (savedJobsService.js:96-102, 187-193), ask for the job column equal to one value, always a number or NaN, and a numeric job id is sent as is |
| Backend.PatchEffect | src/services/api/shortlistService.js:237-253 | if the backend applies a patch as a map override (an assumption), a sparse patch applied to a stored row overwrites the columns with truthy inputs, leaves a column with a falsy input as it was, and leaves columns outside the table untouched |
| Shortlist.ToRequest | src/services/api/shortlistService.js:45-55 | every field is the stored value when truthy, otherwise its default: "", 0, "medium", "pending", or the current time; the job reference is flattened to a string id or "" |
| Shortlist.ReadRequests | src/services/api/shortlistService.js:33-59 | `getAll` (and `getByEmployerId`, 144-169, which maps the same way) maps every listed row with the one mapping, or returns [] |
| Shortlist.GetById | src/services/api/shortlistService.js:84-110 | `getById` returns the mapped request exactly when the answer succeeded with truthy data |
| Shortlist.ReadPathsAgree | src/services/api/shortlistService.js:33-110 | for any listed answer whose rows are all truthy, one request is listed per row, and the i-th listed request is what the read by id gives for the i-th row |
| Shortlist.EmployerFilter | src/services/api/shortlistService.js:133-139 | `getByEmployerId` asks for the employer column equal to the argument, unconverted |
| Shortlist.EmployerFilterOfRead | src/services/api/shortlistService.js:133-139 | the employer filter built from a request that was read asks for the stored employer, or for "" when none is stored |
| Shortlist.CreateRecord | src/services/api/shortlistService.js:181-193 | the one record submitted has exactly these nine columns: the name with the date, the inputs, job and candidate count through `parseInt`, status defaulted to "pending", and the submission time |
| Shortlist.CreateThenRead | src/services/api/shortlistService.js:181-193 | creating then reading back gives the input with the defaults applied, the job as the numeral of the parsed id, and the creation time as the request date |
| Shortlist.UpdatePatch | src/services/api/shortlistService.js:237-247 | the update patch is the sparse patch over the shortlist's seven columns |
| Applications.ToApplication | src/services/api/applicationService.js:45-55 | every field is the stored value when truthy, otherwise "", "submitted" or the current time; the job reference is flattened to a string id or "" |
| Applications.ReadApplications | src/services/api/applicationService.js:144-169 | `getAll` and `getByJobId` map the rows in order, or return [] |
| Applications.GetById | src/services/api/applicationService.js:84-110 | `getById` returns the mapped application exactly when the answer succeeded with truthy data |
| Applications.JobIdFilterOfRead | src/services/api/applicationService.js:133-139 | the job filter built from the string id of a read application asks for the stored numeric job |
| Applications.CreateRecord | src/services/api/applicationService.js:181-193 | the candidate name goes in both `Name` and its own column; status is defaulted to "submitted"; the submission time is now; the job goes through `parseInt` |
| Applications.CreateThenRead | src/services/api/applicationService.js:181-193 | creating then reading back gives the input with the defaults applied and the job id as a numeral |
| Applications.MinimalApplication | src/services/api/applicationService.js:181-193 | creating with only name, email and job "5" reads back with status "submitted", job id "5" and phone "" |
| Applications.UpdatePatch | src/services/api/applicationService.js:237-249 | the update patch is the sparse patch over the seven application columns, with a truthy candidate name writing two of them |
| Applications.UpdateSkipsJobAndDate | src/services/api/applicationService.js:237-249 | no update patch ever holds the job reference or the submission date |
| Applications.UpdateWritesBothNames | src/services/api/applicationService.js:240-243 | a truthy candidate name is sent, unconverted, in both `Name` and `candidate_name_c` |
| Applications.UpdateKeepsJobAndDate | src/services/api/applicationService.js:237-249 | if the backend applies the patch as a map override (an assumption), the stored job reference and submission date survive every update, and a truthy name lands in both name columns |
| Jobs.ParseList | src/services/api/jobService.js:59-60 | a falsy column reads as []; a string reads as its non-blank lines; any other truthy value makes the read throw |
| Jobs.ToJob | src/services/api/jobService.js:49-63 | each field is the stored value or its default ("", "active", the current time); requirements and benefits are the parsed lists; the mapping fails exactly when a list column cannot be split |
| Jobs.ReadJobs | src/services/api/jobService.js:37-68 | `getAll` maps every row in order, or returns [] when any row cannot be mapped |
| Jobs.GetById | src/services/api/jobService.js:96-127 | `getById` returns the mapped job only for a successful answer with truthy data, and null when its lists cannot be read |
| Jobs.CreateRecord | src/services/api/jobService.js:138-153 | the title goes in both `Name` and `title_c`; lists are joined with '\n'; status is defaulted to "active"; the posting date is now |
| Jobs.JoinStrings | src/services/api/jobService.js:149 | joining an array of strings is the plain '\n'-join of those strings |
| Jobs.ListRoundTrip | src/services/api/jobService.js:149-150 | a list of non-blank items without '\n', joined on create and split on read, comes back unchanged, the empty list included |
| Jobs.CreateThenRead | src/services/api/jobService.js:138-153 | creating a job with such lists and reading it back gives every text field of the input with "" for a falsy one, status defaulted to "active", the creation time as the posting date, and the same requirement and benefit lists |
| Jobs.UpdatePatch | src/services/api/jobService.js:198-223 | the update patch is the sparse patch over the twelve job columns; list inputs are joined with '\n' |
| Jobs.EmptyListSent | src/services/api/jobService.js:213-217 | an update whose requirements are `[]` sends the requirements column as "" |
| Jobs.UpdateWithEmptyList | src/services/api/jobService.js:213-217 | an update with `requirements: []` sends ""; if the backend applies the patch as a map override (an assumption), the job then reads back with no requirements |
| SavedJobs.ToSavedJob | src/services/api/savedJobsService.js:33-37 | the job is the referenced Id itself or null, and the save time is the stored one or the current time |
| SavedJobs.ReadSavedJobs | src/services/api/savedJobsService.js:22-41 | `getAll` maps the rows in order, or returns [] |
| SavedJobs.GetById | src/services/api/savedJobsService.js:60-80 | `getById` returns the mapped saved job exactly when the answer succeeded with truthy data |
| SavedJobs.IsSavedValue | src/services/api/savedJobsService.js:106-112 | the check answers true for a successful answer with a non-empty list, and only for a successful answer |
| SavedJobs.FirstRow | src/services/api/savedJobsService.js:204 | `data[0]` of a non-empty array is its first element, of an empty one undefined |
| SavedJobs.SaveRecord | src/services/api/savedJobsService.js:134-140 | the record submitted holds the name "Saved Job - " plus the job, the job through `parseInt`, and the save time |
| SavedJobs.AfterFind | src/services/api/savedJobsService.js:199-204 | the delete gives up exactly when the find failed or found nothing, and otherwise targets the first found row's own Id; the only other outcome, a throw, happens exactly when that first row is null or undefined |
| SavedJobs.FirstMatchExists | src/services/api/savedJobsService.js:197-204 | when some saved row holds the job, there is a first such row |
| SavedJobs.FirstMatchUnique | src/services/api/savedJobsService.js:197-204 | the first stored row holding a job is unique |
| SavedJobs.MatchingHead | src/services/api/savedJobsService.js:197-204 | the first row a find for the job returns is the first stored row holding that job |
| SavedJobs.WithoutKeepsNumbering | src/services/api/savedJobsService.js:206-210 | deleting rows keeps the stored ids positive and distinct |
| SavedJobs.WithoutOne | src/services/api/savedJobsService.js:204-210 | deleting one row by its own id removes that row and no other |
| SavedJobs.SavedJobStore.FetchRecords | src/services/api/savedJobsService.js:96-106 | an accepted fetch returns the rows whose job equals the filter value, in store order, cut to the page size; a rejected one answers `success: false`, and a throwing one raises |
| SavedJobs.SavedJobStore.CreateRecord | src/services/api/savedJobsService.js:142 | an accepted insert stores the record under the next id and returns it as a single successful entry; a rejected or throwing one stores nothing |
| SavedJobs.SavedJobStore.DeleteRecord | src/services/api/savedJobsService.js:210 | an accepted delete drops the rows with the given ids and reports one entry per id, successful exactly when a row had that id; a rejected or throwing one drops nothing |
| SavedJobs.SavedJobStore.IsJobSaved | src/services/api/savedJobsService.js:83-117 | true exactly when a client exists, the fetch is accepted, and some row holds the parsed job; one fetch with limit 1 is sent |
| SavedJobs.SavedJobStore.Create | src/services/api/savedJobsService.js:119-172 | without a client: null and no call. Found by an accepted check: null and no insert. Otherwise exactly one insert: when accepted it returns the new row under the next id, which then advances by one; when not, null and nothing stored. An accepted check never lets a duplicate job in |
| SavedJobs.SavedJobStore.DeleteById | src/services/api/savedJobsService.js:206-240 | deleting one row by id: when accepted, the rows with that id go and the answer is true exactly when a row had it; when not, false and nothing goes; one delete call either way |
| SavedJobs.SavedJobStore.DeleteSavedJob | src/services/api/savedJobsService.js:174-240 | without a client, or when the find is rejected, throws or finds nothing: false, with no delete call. Otherwise one delete of the first matching row by its own id: when accepted, true and exactly that row goes; when not, false and nothing goes |
| SavedJobs.SaveTwice | src/services/api/savedJobsService.js:128-132 | with a backend accepting every call, saving the same job twice in a row returns the row then null, and the job is saved exactly once |
| SavedJobs.SaveAgainUnchecked | src/services/api/savedJobsService.js:106-142 | when the check is rejected or throws but inserts are accepted, saving an already saved job stores it again: the store then holds the job at least twice |
| SavedJobs.SaveThenDelete | src/services/api/savedJobsService.js:174-240 | with a backend accepting every call, saving a new job and then deleting it succeeds both times and leaves the stored rows as they were |
| Router.LeadingSlash | src/router/index.jsx:35 | the lookup path always starts with '/'; a path that already does is unchanged; any other gets exactly one '/' prepended |
| Router.LeadingSlashIdempotent | src/router/index.jsx:35 | normalising a path that was already normalised changes nothing |
| Router.ConfigPath | src/router/index.jsx:31-36 | an index route is looked up under "/"; another route is looked up under its path with a leading slash, and throws when its path is not a string |
| Router.Meta | src/router/index.jsx:23-30 | the extra props are exactly the props other than path, index, element, access and children, with their values |
| Router.HasChildren | src/router/index.jsx:50 | an array of children counts exactly when it is non-empty; undefined, null, booleans, numbers and NaN never count |
| Router.CreateRoute | src/router/index.jsx:23-55 | the route has `index: true` or its own path, the element wrapped in a loading boundary when present, and a handle of the extra props plus access. Access is the explicit one when truthy, else the looked-up rule's `allow`. Children are attached only when non-empty |
| Router.AccessFallback | src/router/index.jsx:38-47 | an explicit truthy access wins; a falsy one defers to the table; every extra prop lands in the handle |
| Router.SlashIrrelevant | src/router/index.jsx:35 | "x" and "/x" look up the same access rule |
| Router.TablesBuild | src/router/index.jsx:58-123 | all fifteen routes of the main and auth tables build without throwing and look up "/" or "/" followed by their path |

## Left out

- **I/O.** Notifications (toasts) and console logging are left out; they
  carry no return value. The model keeps only the list of messages shown
  for failed entries (`Backend.FailureNotices`).
- **Clock.** The clock is a parameter: `new Date().toISOString()` is
  `now`, and `toLocaleDateString()` is `today`. Locale formatting is not
  modelled.
- **Backend client.** The hosted backend client is outside the model.
  - For jobs, applications and shortlist requests, each operation takes
    the backend's answer as an input (`Reply`).
  - For saved jobs, `SavedJobStore` stands in for the table. It is an
    assumption, not the real service: equality filtering on the job
    column, rows in insertion order, fresh ids counted up from 1, and
    delete by id. How the backend treats a call is fixed per kind (every
    fetch alike, every write alike) for the life of the store; a schedule
    that changes from one call to the next is not modelled.
  - `SavedJobs.SavedJobStore.CreateRecord` and
    `SavedJobs.SavedJobStore.DeleteRecord`: a write that throws or is
    rejected is taken to leave the rows unchanged. A write that takes
    effect and then throws is not modelled.
  - `Backend.StoredRow` is an assumption too: the row a created record
    reads back as holds the payload plus the assigned `Id`, with every
    lookup column returned as an object carrying the referenced `Id`.
    No source line states this. The create-then-read lemmas of all three
    services (`Shortlist.CreateThenRead`, `Applications.CreateThenRead`,
    `Applications.MinimalApplication`, `Jobs.CreateThenRead`) rest on it.
  - How `updateRecord` applies a patch is an assumption as well. The row
    stored after an update is taken to be `row + patch`, a map override:
    every key in the patch overwrites the stored value, and every other
    column keeps its value. No source line states this.
    `Backend.PatchEffect`, `Applications.UpdateKeepsJobAndDate` and
    `Jobs.UpdateWithEmptyList` rest on it. The patch contents themselves
    (`UpdatePatch`, `UpdateSkipsJobAndDate`, `UpdateWritesBothNames`,
    `EmptyListSent`) do not.
- **Query options.** The query's `fields`, `orderBy` and `pagingInfo`
  are not modelled, apart from the saved-jobs page size of 1. Sorting is
  left to the backend.
- **Concurrency.** Asynchronous interleaving is not modelled. The store
  runs calls one at a time, so the check-then-insert race between two
  concurrent `create` calls is out of scope.
- **Numbers.** Fractions, infinities, -0 and exponent notation are not
  modelled: numbers are unbounded integers plus NaN. `parseInt("-0")`
  is therefore 0. The store compares NaN job values as equal.
- **Length coercion.** A `length` property of an object that is not an
  array or string is read as given, without ToNumber coercion.
- **Router tree.** JSX, `lazy` and `createBrowserRouter` are not modelled,
  nor is the nested tree of the root shell and layout shell
  (src/router/index.jsx:125 onward). The element is a value, the loading
  boundary is an object value, and only the two route tables are built.
- **Input records.** Create inputs are records of exactly the properties
  each `create` reads (`RequestData`, `ApplicationData`, `JobData`). Getter
  properties and prototype lookups are not modelled.
- **Duplicate export.** The repeated `shortlistService` export at
  src/services/api/shortlistService.js:333-335 is a redeclaration of the
  module's single instance. It is not modelled.
- **Request ids.** `getById` and `delete` send `parseInt(id)` without
  looking the record up first. The id sent is not part of the model. Their
  result depends only on the backend's answer, which is an input.
- **Per-service mutations.** The shared `Backend.MutationValue` and
  `Backend.DeleteValue` stand for each service's create, update and delete
  result handling, which is written identically in every service. Besides
  the shortlist service, this is applicationService.js:195-226, 255-286 and
  301-332; jobService.js:156-187, 229-260 and 275-305; and
  savedJobsService.js:142-172 and 210-240.
