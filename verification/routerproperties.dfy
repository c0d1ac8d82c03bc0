/** Properties that relate several routes: round trips through the store,
    whole-record overwrite, repeated deletes, the split between a malformed
    id and an absent one, and the schema invariant every write keeps. */
module RouterProperties {
  import opened Wrappers
  import opened ObjectIds
  import opened StudentSchema
  import opened Router

  /** A created record is found again under the id it was given, unchanged. */
  lemma CreateThenGet(store: Store, body: Candidate, newId: ObjectId)
    requires Admissible(body) && newId !in store
    ensures Create(store, body, newId, true).outcome.status == OK
    ensures Get(Create(store, body, newId, true).store, FormatId(newId), true)
         == Outcome(OK, StudentPage(Document(newId, Validate(body).value)))
    ensures Fills(body, Create(store, body, newId, true).store[newId])
  {
    ParseFormat(newId);
  }

  /** A successful create adds exactly one document; a failed one adds none. */
  lemma CreateCount(store: Store, body: Candidate, newId: ObjectId, reachable: bool)
    ensures var t := Create(store, body, newId, reachable);
      |t.store| == if t.outcome.status == OK then |store| + 1 else |store|
  {
    var t := Create(store, body, newId, reachable);
    if t.outcome.status == OK {
      assert t.store.Keys == store.Keys + {newId};
      assert |t.store.Keys| == |store.Keys| + 1;
    }
  }

  /** After a successful update, fetching the id yields exactly the new field set. */
  lemma UpdateThenGet(store: Store, raw: string, body: Candidate)
    requires ParseId(raw).Some? && ParseId(raw).value in store && Admissible(body)
    ensures Get(Update(store, raw, body, true).store, raw, true)
         == Outcome(OK, StudentPage(Document(ParseId(raw).value, Validate(body).value)))
  {
  }

  /** Update overwrites rather than merges: what the id holds afterwards does
      not depend on what it held before. */
  lemma UpdateForgetsOldRecord(s1: Store, s2: Store, raw: string, body: Candidate)
    requires ParseId(raw).Some? && ParseId(raw).value in s1 && ParseId(raw).value in s2
    requires Admissible(body)
    ensures Update(s1, raw, body, true).store[ParseId(raw).value]
         == Update(s2, raw, body, true).store[ParseId(raw).value]
    ensures Update(s1, raw, body, true).outcome == Update(s2, raw, body, true).outcome
  {
  }

  /** Once deleted, a well-formed id is reported not found. */
  lemma DeleteThenGet(store: Store, raw: string)
    requires ParseId(raw).Some?
    ensures Get(Delete(store, raw, true).store, raw, true) == Outcome(BadRequest, NotFound(raw))
  {
  }

  /** Deleting twice has the effect of deleting once, and the repeat succeeds. */
  lemma DeleteIdempotent(store: Store, raw: string)
    requires ParseId(raw).Some?
    ensures var t1 := Delete(store, raw, true);
      var t2 := Delete(t1.store, raw, true);
      t2.store == t1.store && t2.outcome == t1.outcome && t2.outcome.status == OK
  {
  }

  /** A malformed id is a generic error on every route that takes an id,
      never "not found", and nothing is written. */
  lemma MalformedIdIsGenericError(store: Store, raw: string, body: Candidate, reachable: bool)
    requires !(|raw| == IdHexLength && AllHex(raw))
    ensures Get(store, raw, reachable) == Outcome(BadRequest, ErrorPage(CastError(raw)))
    ensures EditForm(store, raw, reachable) == Outcome(BadRequest, ErrorPage(CastError(raw)))
    ensures Update(store, raw, body, reachable) == Transition(store, Outcome(BadRequest, ErrorPage(CastError(raw))))
    ensures Delete(store, raw, reachable) == Transition(store, Outcome(BadRequest, ErrorPage(CastError(raw))))
    ensures View(Get(store, raw, reachable).page) == Some("error")
  {
  }

  /** The edit form has the same found / not found / error split as the detail
      page, over the same document, differing only in the view. */
  lemma EditMirrorsGet(store: Store, raw: string, reachable: bool)
    ensures EditForm(store, raw, reachable).status == Get(store, raw, reachable).status
    ensures Get(store, raw, reachable).page.StudentPage? <==> EditForm(store, raw, reachable).page.UpdateForm?
    ensures Get(store, raw, reachable).page.StudentPage? ==>
      Get(store, raw, reachable).page.document == EditForm(store, raw, reachable).page.student
    ensures !Get(store, raw, reachable).page.StudentPage? ==>
      Get(store, raw, reachable).page == EditForm(store, raw, reachable).page
  {
  }

  /** The detail page is found exactly when some stored id prints as the
      requested text, hex letters compared without case. */
  lemma GetFindsPrintedId(store: Store, raw: string)
    ensures Get(store, raw, true).status == OK <==> exists id :: id in store && LowerString(raw) == FormatId(id)
  {
    if id :| id in store && LowerString(raw) == FormatId(id) {
      Denotes(raw, id);
    }
  }

  /** "Not found" is reported exactly for a well-formed id that no stored
      document carries. */
  lemma NotFoundIffAbsent(store: Store, raw: string)
    ensures Get(store, raw, true).page == NotFound(raw) <==>
      && |raw| == IdHexLength && AllHex(raw)
      && forall id :: id in store ==> LowerString(raw) != FormatId(id)
  {
    if |raw| == IdHexLength && AllHex(raw) {
      forall id | id in store
        ensures LowerString(raw) == FormatId(id) <==> ParseId(raw).value == id
      {
        Denotes(raw, id);
      }
    }
  }

  /** Every route answers 200 on success and 400 on any failure; only the
      list route uses 500. */
  lemma StatusesCollapse(store: Store, raw: string, body: Candidate, newId: ObjectId, reachable: bool)
    ensures Create(store, body, newId, reachable).outcome.status in {OK, BadRequest}
    ensures Get(store, raw, reachable).status in {OK, BadRequest}
    ensures EditForm(store, raw, reachable).status in {OK, BadRequest}
    ensures Update(store, raw, body, reachable).outcome.status in {OK, BadRequest}
    ensures Delete(store, raw, reachable).outcome.status in {OK, BadRequest}
  {
  }

  /** Every write keeps the schema invariant of the store. */
  lemma WritesKeepStoreValid(store: Store, raw: string, body: Candidate, newId: ObjectId, reachable: bool)
    requires StoreValid(store)
    ensures StoreValid(Create(store, body, newId, reachable).store)
    ensures StoreValid(Update(store, raw, body, reachable).store)
    ensures StoreValid(Delete(store, raw, reachable).store)
  {
  }
}
