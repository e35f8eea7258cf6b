/** The REST handlers of TutorialController as functions from what the
    service did (returned a value, or threw) to the response: its status
    code and body, or the exception leaving the handler uncaught. */
module Controller {
  import opened Model
  import opened Decimal
  import opened Query

  const Ok: int := 200
  const Created: int := 201
  const NoContent: int := 204
  const NotFound: int := 404
  const InternalServerError: int := 500

  const DeletedMessage: string := "Tutorial was deleted successfully."
  const CannotDeleteMessage: string := "Cannot delete tutorial."
  const AllDeletedMessage: string := "All tutorials were deleted successfully."
  const CannotDeleteAllMessage: string := "Cannot delete tutorials."
  /** Prefix of the 404 body of the update handler. */
  const UpdateNotFoundPrefix: string := "Cannot find tutorial with id="
  /** Prefix of the 404 body of the delete handler (capital T). */
  const DeleteNotFoundPrefix: string := "Cannot find Tutorial with id="

  /** What a service call did: returned a value (None is Java's null), or
      threw an exception. */
  datatype Outcome<+T> = Returned(value: T) | Threw

  /** A response body: none, one entity, a list, or a text message. */
  datatype Body = NoBody | One(tutorial: Tutorial) | Many(tutorials: seq<Tutorial>) | Text(message: string)

  /** A response, or Propagated when the exception is not caught here. */
  datatype Reply = Respond(status: int, body: Body) | Propagated

  /** GET /tutorials: the service's list, or 204 with no body when empty. */
  function GetAllTutorials(o: Outcome<seq<Tutorial>>): (r: Reply)
    ensures r.Propagated? <==> o.Threw?
    ensures r.Respond? ==> (r.status == NoContent <==> o.value == [])
    ensures r.Respond? && o.value == [] ==> r.body == NoBody
    ensures r.Respond? && o.value != [] ==> r == Respond(Ok, Many(o.value))
  {
    match o
    case Threw => Propagated
    case Returned(tutorials) =>
      if tutorials == [] then Respond(NoContent, NoBody) else Respond(Ok, Many(tutorials))
  }

  /** GET /tutorials/{id}: 200 with the entity, or 404 with no body. */
  function GetTutorialById(o: Outcome<Option<Tutorial>>): (r: Reply)
    ensures r.Propagated? <==> o.Threw?
    ensures r.Respond? && o.value.Some? ==> r == Respond(Ok, One(o.value.value))
    ensures r.Respond? && o.value.None? ==> r == Respond(NotFound, NoBody)
  {
    match o
    case Threw => Propagated
    case Returned(found) =>
      if found.Some? then Respond(Ok, One(found.value)) else Respond(NotFound, NoBody)
  }

  /** POST /tutorials: 201 with the created entity; any fault is caught and
      answered with 500 and no body. */
  function CreateTutorial(o: Outcome<Tutorial>): (r: Reply)
    ensures r.Respond?
    ensures o.Returned? ==> r == Respond(Created, One(o.value))
    ensures o.Threw? ==> r == Respond(InternalServerError, NoBody)
  {
    match o
    case Returned(created) => Respond(Created, One(created))
    case Threw => Respond(InternalServerError, NoBody)
  }

  /** PUT /tutorials/{id}: 200 with the updated entity, or 404 with a
      message naming the id. */
  function UpdateTutorial(id: int, o: Outcome<Option<Tutorial>>): (r: Reply)
    ensures r.Propagated? <==> o.Threw?
    ensures r.Respond? && o.value.Some? ==> r == Respond(Ok, One(o.value.value))
    ensures r.Respond? && o.value.None? ==>
              r == Respond(NotFound, Text(UpdateNotFoundPrefix + IntToString(id)))
  {
    match o
    case Threw => Propagated
    case Returned(updated) =>
      if updated.Some? then Respond(Ok, One(updated.value))
      else Respond(NotFound, Text(UpdateNotFoundPrefix + IntToString(id)))
  }

  /** DELETE /tutorials/{id}: a success message, a 404 message naming the
      id, or, for any fault, 500 with a fixed message. */
  function DeleteTutorial(id: int, o: Outcome<Option<Tutorial>>): (r: Reply)
    ensures r.Respond? && r.body.Text?
    ensures o.Returned? && o.value.Some? ==> r == Respond(Ok, Text(DeletedMessage))
    ensures o.Returned? && o.value.None? ==>
              r == Respond(NotFound, Text(DeleteNotFoundPrefix + IntToString(id)))
    ensures o.Threw? ==> r == Respond(InternalServerError, Text(CannotDeleteMessage))
  {
    match o
    case Threw => Respond(InternalServerError, Text(CannotDeleteMessage))
    case Returned(deleted) =>
      if deleted.Some? then Respond(Ok, Text(DeletedMessage))
      else Respond(NotFound, Text(DeleteNotFoundPrefix + IntToString(id)))
  }

  /** DELETE /tutorials: the service's (always null) result is ignored. */
  function DeleteAllTutorials(o: Outcome<Option<Tutorial>>): (r: Reply)
    ensures o.Returned? ==> r == Respond(Ok, Text(AllDeletedMessage))
    ensures o.Threw? ==> r == Respond(InternalServerError, Text(CannotDeleteAllMessage))
  {
    match o
    case Returned(_) => Respond(Ok, Text(AllDeletedMessage))
    case Threw => Respond(InternalServerError, Text(CannotDeleteAllMessage))
  }

  /** GET /tutorials/published: like the list endpoint, but a fault is
      caught and answered with 500 and no body. */
  function FindByPublished(o: Outcome<seq<Tutorial>>): (r: Reply)
    ensures r.Respond?
    ensures o.Returned? && o.value == [] ==> r == Respond(NoContent, NoBody)
    ensures o.Returned? && o.value != [] ==> r == Respond(Ok, Many(o.value))
    ensures o.Threw? ==> r == Respond(InternalServerError, NoBody)
  {
    match o
    case Threw => Respond(InternalServerError, NoBody)
    case Returned(tutorials) =>
      if tutorials == [] then Respond(NoContent, NoBody) else Respond(Ok, Many(tutorials))
  }

  // ---------------------------------------------------------------------
  // The statuses each handler's Javadoc documents (200, 201, 204, 404, 500),
  // with a failure entry only where the handler has a catch block; an
  // independent reference for the handlers above

  datatype Endpoint = List | GetById | Create | UpdateById | DeleteById | DeleteEvery | ListPublished

  /** How an outcome is classified by the table's columns. */
  datatype Kind = Success | EmptyResult | Absent | Failure

  function ListKind(o: Outcome<seq<Tutorial>>): Kind {
    match o
    case Threw => Failure
    case Returned(s) => if s == [] then EmptyResult else Success
  }

  function EntityKind(o: Outcome<Option<Tutorial>>): Kind {
    match o
    case Threw => Failure
    case Returned(t) => if t.None? then Absent else Success
  }

  function ValueKind<T>(o: Outcome<T>): Kind {
    if o.Threw? then Failure else Success
  }

  /** The status each endpoint answers for each kind of outcome; None where
      the table has no entry (for Failure: the handler does not catch). */
  function TableStatus(e: Endpoint, k: Kind): Option<int> {
    match (e, k)
    case (List, Success) => Some(200)
    case (List, EmptyResult) => Some(204)
    case (GetById, Success) => Some(200)
    case (GetById, Absent) => Some(404)
    case (Create, Success) => Some(201)
    case (Create, Failure) => Some(500)
    case (UpdateById, Success) => Some(200)
    case (UpdateById, Absent) => Some(404)
    case (DeleteById, Success) => Some(200)
    case (DeleteById, Absent) => Some(404)
    case (DeleteById, Failure) => Some(500)
    case (DeleteEvery, Success) => Some(200)
    case (DeleteEvery, Failure) => Some(500)
    case (ListPublished, Success) => Some(200)
    case (ListPublished, EmptyResult) => Some(204)
    case (ListPublished, Failure) => Some(500)
    case _ => None
  }

  function StatusOf(r: Reply): Option<int> {
    if r.Respond? then Some(r.status) else None
  }

  /** Every handler answers the status the table gives for its outcome, and
      lets a fault escape exactly where the table has no failure entry. */
  lemma HandlersFollowStatusTable(id: int, list: Outcome<seq<Tutorial>>,
                                  entity: Outcome<Option<Tutorial>>, created: Outcome<Tutorial>)
    ensures StatusOf(GetAllTutorials(list)) == TableStatus(List, ListKind(list))
    ensures StatusOf(GetTutorialById(entity)) == TableStatus(GetById, EntityKind(entity))
    ensures StatusOf(CreateTutorial(created)) == TableStatus(Create, ValueKind(created))
    ensures StatusOf(UpdateTutorial(id, entity)) == TableStatus(UpdateById, EntityKind(entity))
    ensures StatusOf(DeleteTutorial(id, entity)) == TableStatus(DeleteById, EntityKind(entity))
    ensures StatusOf(DeleteAllTutorials(entity)) == TableStatus(DeleteEvery, ValueKind(entity))
    ensures StatusOf(FindByPublished(list)) == TableStatus(ListPublished, ListKind(list))
  {
  }

  /** The 404 bodies of update and delete end in the decimal text of the
      requested id, which reads back as that id: the message identifies the
      tutorial that was not found. */
  lemma NotFoundMessagesNameTheId(id: int)
    ensures var body := UpdateTutorial(id, Returned(None)).body;
            && body.Text? && StartsWith(body.message, UpdateNotFoundPrefix)
            && ParseInt(body.message[|UpdateNotFoundPrefix|..]) == Some(id)
    ensures var body := DeleteTutorial(id, Returned(None)).body;
            && body.Text? && StartsWith(body.message, DeleteNotFoundPrefix)
            && ParseInt(body.message[|DeleteNotFoundPrefix|..]) == Some(id)
  {
    var u := UpdateNotFoundPrefix + IntToString(id);
    var d := DeleteNotFoundPrefix + IntToString(id);
    assert u[..|UpdateNotFoundPrefix|] == UpdateNotFoundPrefix;
    assert u[|UpdateNotFoundPrefix|..] == IntToString(id);
    assert d[..|DeleteNotFoundPrefix|] == DeleteNotFoundPrefix;
    assert d[|DeleteNotFoundPrefix|..] == IntToString(id);
    ParseIntToString(id);
  }

  /** Two requests for different ids get different 404 bodies. */
  lemma NotFoundMessagesDistinguishIds(i: int, j: int)
    requires i != j
    ensures UpdateTutorial(i, Returned(None)) != UpdateTutorial(j, Returned(None))
    ensures DeleteTutorial(i, Returned(None)) != DeleteTutorial(j, Returned(None))
  {
    NotFoundMessagesNameTheId(i);
    NotFoundMessagesNameTheId(j);
  }

  /** The update and delete 404 bodies for one id are different strings
      that differ only in the letter case of the T of "tutorial". */
  lemma NotFoundMessagesDifferInCase(id: int)
    ensures var u := UpdateTutorial(id, Returned(None)).body.message;
            var d := DeleteTutorial(id, Returned(None)).body.message;
            u != d && EqualsIgnoreCase(u, d)
  {
    var u := UpdateNotFoundPrefix + IntToString(id);
    var d := DeleteNotFoundPrefix + IntToString(id);
    assert u[12] != d[12];
    PrefixesEqualIgnoringCase();
    SameSuffixKeepsCaseEquality(UpdateNotFoundPrefix, DeleteNotFoundPrefix, IntToString(id));
  }

  /** The two 404 prefixes are equal ignoring case. */
  lemma PrefixesEqualIgnoringCase()
    ensures EqualsIgnoreCase(UpdateNotFoundPrefix, DeleteNotFoundPrefix)
  {
    assert Lowered(UpdateNotFoundPrefix) == Lowered(DeleteNotFoundPrefix);
  }

  /** Appending the same text to two strings equal ignoring case keeps them so. */
  lemma SameSuffixKeepsCaseEquality(a: string, b: string, c: string)
    requires EqualsIgnoreCase(a, b)
    ensures EqualsIgnoreCase(a + c, b + c)
  {
    forall i | 0 <= i < |a + c| ensures CharEqualsIgnoreCase((a + c)[i], (b + c)[i]) {
      if i < |a| {
        assert CharEqualsIgnoreCase(a[i], b[i]);
      }
    }
  }
}
