# Student records: schema and `/students` routes

A model of a small server-rendered CRUD application for student records.
Two parts are modelled:

- **The student schema** (`StudentSchema`, `studentschema.dfy`). These are the field rules a
  student document must meet before it is written:
  - `name` is required and is at least 2 long, counted as JavaScript counts string length (UTF-16 code units).
  - `age` defaults to 18 and is at least 0.
  - `major` is required and is one of Chemistry, Computer Science, Finance, English, Math,
    undecided.
  - The nested `schlarship` object holds `merit` (default 0, in [0, 5000]) and `other`
    (default 0, at least 0). The schema's own spelling `schlarship` is kept.

  `Validate` takes a request body whose fields may each be absent. It returns either the fully
  defaulted valid record or every violation, naming the path and the rule.
- **The router** (`Router`, `router.dfy`). The document store is a `map<ObjectId, Record>`.
  Each route is one atomic step over that map. It returns the page it renders (view name and
  locals) and the HTTP status. The write routes (create, update, delete) also return the new
  store. The read routes (list, detail page, edit form) return only the outcome, so they cannot
  change the store.
  - A route parameter is cast to an ObjectId (`ObjectIds`, `objectids.dfy`). A malformed id is
    a cast error and renders the generic `error` page with 400.
  - A well-formed id with no matching document renders `student_notfound` with 400 on the
    detail and edit routes.
  - On update it renders the success page with no document.
  - On delete it still renders the delete success page.
  - Listing failures send a plain-text body with 500. Every other failure is 400.

`RouterProperties` (`routerproperties.dfy`) relates the routes to one another:
- create then get returns the created record;
- update overwrites the whole record;
- a repeated delete changes nothing more;
- a malformed id never yields "not found";
- every write keeps every stored record valid.

Inputs the model cannot see become parameters:
- `reachable` says whether the database call completes. When it is false, the call rejects the
  way a lost connection does.
- `newId` is the ObjectId the driver generated for a create. If it is already in the store, the
  insert is rejected as a duplicate key.

The list route answers 500 when listing fails (app.js:52); every other route answers 400 on
failure.

## Model

| member | source | states |
|---|---|---|
| StudentSchema.Validate | mongooseModel/student.js:24-63 | accepts exactly the bodies meeting every field rule; an accepted body yields a valid record that keeps every supplied field and has 18 / 0 / 0 for an omitted age / merit / other; a rejected body yields a non-empty list of violations, at most one per path, containing exactly the rules the body breaks (missing or empty name/major is `required`, a name of 1 UTF-16 code unit is `minlength 2`, age below 0, merit outside [0, 5000], other below 0, major outside the six values) |
| StudentSchema.RevalidateValid | mongooseModel/student.js:24-63 | a valid record resubmitted with all its fields validates to itself |
| StudentSchema.ValidateIdempotent | mongooseModel/student.js:24-63 | the record validation produces passes validation again unchanged |
| StudentSchema.OneBrokenRuleRejects | mongooseModel/student.js:25-61 | breaking any single rule rejects the body and reports that rule |
| StudentSchema.Examples | mongooseModel/student.js:25-61 | worked cases: a complete valid body, defaults for omitted fields, a one-character name rejected, a single astral character (two UTF-16 units) accepted as a name, and a body breaking three rules at once |
| ObjectIds.ParseId | app.js:107-111 | the cast of a route parameter to an ObjectId succeeds exactly on 24 hex digits |
| ObjectIds.ParseFormat | app.js:107-111 | casting the printed form of an id gives back that id |
| ObjectIds.Denotes | app.js:107-111 | a parameter casts to an id exactly when it lower-cases to that id's printed form |
| ObjectIds.ParseIgnoresCase | app.js:109 | ids differing only in the case of hex letters name the same document |
| Router.List | app.js:41-54 | when the store answers, status 200 and the `students` view listing every stored document exactly once with its record; otherwise status 500 with the plain-text failure body and no view |
| Router.Create | app.js:75-97 | 200 exactly when the body is admissible, the store answers and the generated id is new; then exactly one document is added under that id, every other entry is unchanged, and `new_student_data` shows the saved, defaulted record; on any failure the store is unchanged and `student_save_fail` is rendered with 400, carrying the violations when validation failed, otherwise the failed store call or the duplicate key |
| Router.Lookup | app.js:103-151 | the find-by-id shared by detail and edit form: malformed id gives `error` 400 with the cast error; found gives 200 with the document; a failed store call on a well-formed id gives `error` 400; `student_notfound` carrying the requested text exactly when the id is well formed, the store answers and no document matches |
| Router.Get | app.js:103-129 | a 200 answer shows, in `student_page`, a stored document whose printed id is the requested id lower-cased |
| Router.EditForm | app.js:135-151 | a 200 answer shows, in `student_update`, a stored document whose printed id is the requested id lower-cased |
| Router.Update | app.js:157-183 | 200 exactly when the id is well formed, the new field set is admissible and the store answers; an existing document is replaced by the validated new record and returned, other ids untouched; an absent id leaves the store unchanged and renders the success view with no document; any failure renders `error` with 400 and changes nothing, carrying the cast error, the validation violations, or the failed store call, in that order of precedence |
| Router.Delete | app.js:188-197 | 200 with `student_delete_success` exactly when the id is well formed and the store answers, whether or not a document matched; the store loses that id and nothing else; otherwise `error` with 400 carrying the cast error or the failed store call, and no change |
| RouterProperties.CreateThenGet | app.js:75-129 | a record created under a new id is found under its printed id with exactly the validated fields |
| RouterProperties.CreateCount | app.js:75-97 | a successful create grows the store by one document, a failed one leaves its size unchanged |
| RouterProperties.UpdateThenGet | app.js:157-183 | after a successful update the detail page shows exactly the new field set |
| RouterProperties.UpdateForgetsOldRecord | app.js:167-177 | the record an id holds after update, and the page shown, do not depend on the record it held before (overwrite, no merge) |
| RouterProperties.DeleteThenGet | app.js:103-129 | after deleting a well-formed id, the detail page reports it not found |
| RouterProperties.DeleteIdempotent | app.js:188-197 | deleting twice leaves the same store as deleting once and the repeat still succeeds |
| RouterProperties.MalformedIdIsGenericError | app.js:122-127 | a malformed id on detail, edit, update or delete renders `error` with 400 and the cast error, never `student_notfound`, and writes nothing |
| RouterProperties.EditMirrorsGet | app.js:135-151 | the edit form has the same status and the same found / not found / error split as the detail page, over the same document |
| RouterProperties.GetFindsPrintedId | app.js:111-116 | with the store answering, the detail page is found exactly when some stored id prints as the requested text, ignoring hex letter case |
| RouterProperties.NotFoundIffAbsent | app.js:117-121 | `student_notfound` is rendered exactly for a well-formed id that no stored document carries |
| RouterProperties.StatusesCollapse | app.js:94-196 | create, detail, edit, update and delete answer only 200 or 400 |
| RouterProperties.WritesKeepStoreValid | app.js:75-197 | create, update and delete keep every stored record valid under the schema |

## Left out

- Connecting to the database and listening on a port (app.js:27-36, 199-201; mongooseModel/student.js:9-18): process and network I/O. A failed store call is the `reachable` parameter.
- Body parsing and method override middleware (app.js:14-24): requests arrive as already-parsed, typed fields.
- Template rendering: only the view name, status and locals are modelled, not page content.
- The blank creation form route (app.js:62-69): presentation only, with no logic.
- Concurrency and async scheduling: each handler is one atomic step.
- Casting form text to numbers: `age`, `merit` and `other` arrive as integers. JavaScript numbers are floating point; they are modelled as `int`.
- Error message texts and the mongoose error objects: a failure carries its kind (cast, validation with the violations, duplicate key, unreachable).
- ObjectId generation: the new id is a parameter. If it is already taken, the insert fails as a duplicate key.
- ObjectIds.ParseId: accepts only the 24-hex-digit form. The 12-byte string and integer forms mentioned in the comment at app.js:109 are not modelled. The routes inherit this: a 12-character parameter such as `abcdefghijkl` is a valid id under those forms, so it gets `student_notfound` on the detail and edit routes, `student_update_success` with no document on update, and `student_delete_success` on delete, but the model renders `error` with the cast error for it, as RouterProperties.MalformedIdIsGenericError and RouterProperties.NotFoundIffAbsent state.
- Router.Update: modelled as validate-then-replace with schema defaults applied. The store's own update-validator semantics under `overwrite` and `runValidators` (app.js:172-175) are not visible and are not modelled.
- Router.List: documents appear in an unspecified order. The store's natural order is not modelled.
- The order in which violations are reported is fixed to schema path order. The store reports them keyed by path.
