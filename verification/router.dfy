/** The `/students` routes. The document store is a map from ObjectId to
    record; each handler is one atomic step over it. A handler that writes
    returns the new store with its outcome; the read handlers return only
    the outcome, so they cannot change the store. `reachable` stands for
    whether the store call completes: when it is false the call rejects, as
    any database failure other than a cast or validation error does. */
module Router {
  import opened Wrappers
  import opened ObjectIds
  import opened StudentSchema

  type Store = map<ObjectId, Record>

  /** A stored record together with its `_id`. */
  datatype Document = Document(id: ObjectId, record: Record)

  /** What a rejected store call carries to the page that reports it. */
  datatype Fault =
    | CastError(value: string)
    | ValidationError(violations: seq<Violation>)
    | DuplicateKey(key: ObjectId)
    | Unreachable

  /** The page a handler renders, with the locals passed to it. */
  datatype Page =
    | Students(studentsArr: seq<Document>)
    | ListFailureText(body: string)
    | NewStudentData(savedStudent: Document)
    | SaveFail(e: Fault)
    | StudentPage(document: Document)
    | NotFound(requested: string)
    | UpdateForm(student: Document)
    | UpdateSuccess(newData: Option<Document>)
    | DeleteSuccess
    | ErrorPage(e: Fault)

  datatype Outcome = Outcome(status: int, page: Page)

  datatype Transition = Transition(store: Store, outcome: Outcome)

  const OK: int := 200
  const BadRequest: int := 400
  const ServerError: int := 500

  /** The plain-text body sent when listing fails; it is not a rendered view. */
  const ListFailureMessage: string := "尋找資料時伺服器發生錯誤"

  /** The template a page is rendered from; the list failure sends text instead. */
  function View(p: Page): Option<string> {
    match p
    case Students(_) => Some("students")
    case ListFailureText(_) => None
    case NewStudentData(_) => Some("new_student_data")
    case SaveFail(_) => Some("student_save_fail")
    case StudentPage(_) => Some("student_page")
    case NotFound(_) => Some("student_notfound")
    case UpdateForm(_) => Some("student_update")
    case UpdateSuccess(_) => Some("student_update_success")
    case DeleteSuccess => Some("student_delete_success")
    case ErrorPage(_) => Some("error")
  }

  /** The documents list the store's contents exactly, each id once. */
  ghost predicate Lists(docs: seq<Document>, store: Store) {
    && (forall i :: 0 <= i < |docs| ==> docs[i].id in store && store[docs[i].id] == docs[i].record)
    && (forall id :: id in store ==> exists i :: 0 <= i < |docs| && docs[i].id == id)
    && (forall i, j :: 0 <= i < j < |docs| ==> docs[i].id != docs[j].id)
  }

  /** Every persisted record satisfies the schema. */
  ghost predicate StoreValid(store: Store) {
    forall id :: id in store ==> Valid(store[id])
  }

  /** GET /students: render every document, or send the failure text with 500. */
  method List(store: Store, reachable: bool) returns (out: Outcome)
    ensures reachable ==> out.status == OK && out.page.Students? && Lists(out.page.studentsArr, store)
    ensures !reachable ==> out.status == ServerError && out.page == ListFailureText(ListFailureMessage) && View(out.page).None?
  {
    if !reachable {
      return Outcome(ServerError, ListFailureText(ListFailureMessage));
    }
    var docs: seq<Document> := [];
    var rest := store.Keys;
    while rest != {}
      invariant rest <= store.Keys
      invariant forall i :: 0 <= i < |docs| ==> docs[i].id in store && docs[i].id !in rest && store[docs[i].id] == docs[i].record
      invariant forall id :: id in store && id !in rest ==> exists i :: 0 <= i < |docs| && docs[i].id == id
      invariant forall i, j :: 0 <= i < j < |docs| ==> docs[i].id != docs[j].id
      decreases rest
    {
      var id :| id in rest;
      ghost var prev := docs;
      docs := docs + [Document(id, store[id])];
      assert forall i :: 0 <= i < |prev| ==> docs[i] == prev[i];
      assert docs[|prev|].id == id;
      rest := rest - {id};
    }
    return Outcome(OK, Students(docs));
  }

  /** POST /students: validate the body, then insert it under `newId`, the id
      the driver generated. Validation happens before the write; a write
      that the store rejects (unreachable, or `newId` already taken) is
      reported on the same failure page. */
  function Create(store: Store, body: Candidate, newId: ObjectId, reachable: bool): (t: Transition)
    ensures t.outcome.status == OK <==> Admissible(body) && reachable && newId !in store
    ensures t.outcome.status != OK ==>
      && t.store == store
      && t.outcome.status == BadRequest
      && View(t.outcome.page) == Some("student_save_fail")
    ensures !Admissible(body) ==> t.outcome.page == SaveFail(ValidationError(Validate(body).error))
    ensures Admissible(body) && !reachable ==> t.outcome.page == SaveFail(Unreachable)
    ensures Admissible(body) && reachable && newId in store ==> t.outcome.page == SaveFail(DuplicateKey(newId))
    ensures t.outcome.status == OK ==>
      && newId !in store
      && t.store.Keys == store.Keys + {newId}
      && (forall id :: id in store ==> t.store[id] == store[id])
      && Valid(t.store[newId]) && Fills(body, t.store[newId])
      && t.outcome.page == NewStudentData(Document(newId, t.store[newId]))
  {
    match Validate(body)
    case Failure(vs) => Transition(store, Outcome(BadRequest, SaveFail(ValidationError(vs))))
    case Success(rec) =>
      if !reachable then Transition(store, Outcome(BadRequest, SaveFail(Unreachable)))
      else if newId in store then Transition(store, Outcome(BadRequest, SaveFail(DuplicateKey(newId))))
      else Transition(store[newId := rec], Outcome(OK, NewStudentData(Document(newId, rec))))
  }

  /** The two pages that show one found document. */
  datatype Display = Detail | EditPage

  function Found(display: Display, d: Document): Page {
    match display
    case Detail => StudentPage(d)
    case EditPage => UpdateForm(d)
  }

  /** The lookup shared by GET /students/:_id and its edit form: cast the id,
      then find the document. */
  function Lookup(store: Store, raw: string, reachable: bool, display: Display): (out: Outcome)
    ensures ParseId(raw).None? ==> out == Outcome(BadRequest, ErrorPage(CastError(raw)))
    ensures ParseId(raw).Some? && !reachable ==> out == Outcome(BadRequest, ErrorPage(Unreachable))
    ensures out.status == OK <==> reachable && ParseId(raw).Some? && ParseId(raw).value in store
    ensures out.status == OK ==> out.page == Found(display, Document(ParseId(raw).value, store[ParseId(raw).value]))
    ensures out.status != OK ==> out.status == BadRequest
    ensures out.page == NotFound(raw) <==> out.status != OK && reachable && ParseId(raw).Some?
  {
    match ParseId(raw)
    case None => Outcome(BadRequest, ErrorPage(CastError(raw)))
    case Some(id) =>
      if !reachable then Outcome(BadRequest, ErrorPage(Unreachable))
      else if id in store then Outcome(OK, Found(display, Document(id, store[id])))
      else Outcome(BadRequest, NotFound(raw))
  }

  /** GET /students/:_id */
  function Get(store: Store, raw: string, reachable: bool): (out: Outcome)
    ensures out.status == OK ==>
      && out.page.StudentPage? && out.page.document.id in store
      && store[out.page.document.id] == out.page.document.record
      && LowerString(raw) == FormatId(out.page.document.id)
  {
    var out := Lookup(store, raw, reachable, Detail);
    if out.status == OK then Denotes(raw, ParseId(raw).value); out else out
  }

  /** GET /students/:_id/edit: the same lookup, rendering the edit form. */
  function EditForm(store: Store, raw: string, reachable: bool): (out: Outcome)
    ensures out.status == OK ==>
      && out.page.UpdateForm? && out.page.student.id in store
      && store[out.page.student.id] == out.page.student.record
      && LowerString(raw) == FormatId(out.page.student.id)
  {
    var out := Lookup(store, raw, reachable, EditPage);
    if out.status == OK then Denotes(raw, ParseId(raw).value); out else out
  }

  /** PUT /students/:_id: cast the id, validate the whole new field set, then
      overwrite the matching document. No match is not an error: the success
      page is rendered with no document. */
  function Update(store: Store, raw: string, body: Candidate, reachable: bool): (t: Transition)
    ensures t.outcome.status == OK <==> ParseId(raw).Some? && Admissible(body) && reachable
    ensures t.outcome.status != OK ==>
      && t.store == store
      && t.outcome.status == BadRequest
      && t.outcome.page.ErrorPage?
    ensures ParseId(raw).None? ==> t.outcome.page == ErrorPage(CastError(raw))
    ensures ParseId(raw).Some? && !Admissible(body) ==> t.outcome.page == ErrorPage(ValidationError(Validate(body).error))
    ensures ParseId(raw).Some? && Admissible(body) && !reachable ==> t.outcome.page == ErrorPage(Unreachable)
    ensures t.outcome.status == OK ==>
      && t.store.Keys == store.Keys
      && (forall id :: id in store && id != ParseId(raw).value ==> t.store[id] == store[id])
      && (ParseId(raw).value in store ==>
            && Valid(t.store[ParseId(raw).value]) && Fills(body, t.store[ParseId(raw).value])
            && t.outcome.page == UpdateSuccess(Some(Document(ParseId(raw).value, t.store[ParseId(raw).value]))))
      && (ParseId(raw).value !in store ==> t.store == store && t.outcome.page == UpdateSuccess(None))
  {
    match ParseId(raw)
    case None => Transition(store, Outcome(BadRequest, ErrorPage(CastError(raw))))
    case Some(id) =>
      match Validate(body)
      case Failure(vs) => Transition(store, Outcome(BadRequest, ErrorPage(ValidationError(vs))))
      case Success(rec) =>
        if !reachable then Transition(store, Outcome(BadRequest, ErrorPage(Unreachable)))
        else if id in store then Transition(store[id := rec], Outcome(OK, UpdateSuccess(Some(Document(id, rec)))))
        else Transition(store, Outcome(OK, UpdateSuccess(None)))
  }

  /** DELETE /students/:_id: cast the id and remove the matching document,
      if any; no match still renders the success page. */
  function Delete(store: Store, raw: string, reachable: bool): (t: Transition)
    ensures t.outcome.status == OK <==> ParseId(raw).Some? && reachable
    ensures t.outcome.status == OK ==>
      && t.outcome.page == DeleteSuccess
      && t.store.Keys == store.Keys - {ParseId(raw).value}
      && (forall id :: id in t.store ==> t.store[id] == store[id])
    ensures t.outcome.status != OK ==> t.store == store && t.outcome.status == BadRequest && t.outcome.page.ErrorPage?
    ensures ParseId(raw).None? ==> t.outcome.page == ErrorPage(CastError(raw))
    ensures ParseId(raw).Some? && !reachable ==> t.outcome.page == ErrorPage(Unreachable)
  {
    match ParseId(raw)
    case None => Transition(store, Outcome(BadRequest, ErrorPage(CastError(raw))))
    case Some(id) =>
      if !reachable then Transition(store, Outcome(BadRequest, ErrorPage(Unreachable)))
      else Transition(store - {id}, Outcome(OK, DeleteSuccess))
  }
}
