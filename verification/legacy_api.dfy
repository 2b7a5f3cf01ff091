/**
 * The earlier `/api/notes` handlers of server.js, run against the same notes
 * table: a falsy-only body check, values stored as sent, a search over title
 * and category only, no id check, and no fallback route.
 */
module LegacyNotesApi {
  import opened Wrappers
  import opened JsStrings
  import opened SqlLike
  import opened NotesTable
  import opened Http

  const BodyRequired := "Title and description are required"
  const NoteNotFound := "Note not found"

  /** The body check `!title || !description` is false: both present and not "". */
  function BodyAccepted(b: NoteBody): (r: bool)
    ensures r <==> b.title.Some? && b.description.Some? && |b.title.value| > 0 && |b.description.value| > 0
  {
    Truthy(b.title) && Truthy(b.description)
  }

  /** The stored category `category || 'Others'`: the category as sent unless it is missing or "". */
  function StoredCategory(category: Option<string>): (r: string)
    ensures r != ""
    ensures Truthy(category) ==> r == category.value
    ensures !Truthy(category) ==> r == "Others"
  {
    OrElse(category, "Others")
  }

  /**
   * The WHERE clause GET builds: none for a falsy search, else LIKE on title
   * and category. A row is listed exactly when the search is absent or empty,
   * or its title or category contains the term.
   */
  function SearchFilter(search: Option<string>): (f: Filter)
    ensures forall n :: Matches(n, f) <==>
      || !Truthy(search)
      || ContainsFolded(n.title, search.value)
      || ContainsFolded(n.category, search.value)
  {
    if Truthy(search) then
      var term := search.value;
      var cols := [Title, Category];
      assert cols[1..] == [Category] && [Category][1..] == [];
      forall n ensures AnyColumnLike(n, term, cols) <==>
        ContainsFolded(n.title, term) || ContainsFolded(n.category, term)
      {
        assert AnyColumnLike(n, term, [Category]) == ContainsFolded(n.category, term);
      }
      LikeAny(term, cols)
    else AllRows
  }

  /** GET /api/notes: lists the notes whose title or category matches, newest first. */
  method Get(t: Table, search: Option<string>, fails: bool) returns (resp: Response)
    requires t.Valid()
    ensures fails ==> resp == Response(500, ErrorBody("Failed to retrieve notes"))
    ensures !fails ==> resp.status == 200 && resp.body.NoteList?
                       && IsListing(t.rows, SearchFilter(search), resp.body.rows)
  {
    var filter := AllRows;
    if Truthy(search) {
      filter := LikeAny(search.value, [Title, Category]);
    }
    var r := t.Select(filter, fails);
    if r.Err? {
      return Response(500, ErrorBody("Failed to retrieve notes"));
    }
    resp := Response(200, NoteList(r.value));
  }

  /** POST /api/notes: stores the fields as sent and answers 201 with only the id and a message. */
  method Post(t: Table, body: NoteBody, fails: bool) returns (resp: Response)
    requires t.Valid()
    modifies t
    ensures t.Valid()
    ensures !IsSuccess(resp) ==> unchanged(t)
    ensures !BodyAccepted(body) ==> resp == Response(400, ErrorBody(BodyRequired))
    ensures BodyAccepted(body) && fails ==> resp == Response(500, ErrorBody("Failed to create note"))
    ensures BodyAccepted(body) && !fails ==>
      var id := old(t.nextId);
      && resp == Response(201, CreatedId(id, "Note created successfully"))
      && id !in old(t.issued) && (forall a :: a in old(t.issued) ==> a < id)
      && t.rows == old(t.rows)[id := Note(body.title.value, body.description.value,
                                          StoredCategory(body.category), t.clock, t.clock)]
      && t.nextId == id + 1 && t.clock == old(t.clock) + 1 && t.issued == old(t.issued) + {id}
  {
    if !Truthy(body.title) || !Truthy(body.description) {
      return Response(400, ErrorBody(BodyRequired));
    }
    var r := t.Insert(body.title, body.description, Some(StoredCategory(body.category)), fails);
    if r.Err? {
      return Response(500, ErrorBody("Failed to create note"));
    }
    resp := Response(201, CreatedId(r.value, "Note created successfully"));
  }

  /** PUT /api/notes/:id: no id check; any id that names no row gets 404. */
  method Put(t: Table, id: string, body: NoteBody, fails: bool) returns (resp: Response)
    requires t.Valid()
    modifies t
    ensures t.Valid()
    ensures !IsSuccess(resp) ==> unchanged(t)
    ensures !BodyAccepted(body) ==> resp == Response(400, ErrorBody(BodyRequired))
    ensures BodyAccepted(body) && fails ==> resp == Response(500, ErrorBody("Failed to update note"))
    ensures resp.status == 404 <==> BodyAccepted(body) && !fails && !Names(old(t.rows), id)
    ensures resp.status == 404 ==> resp.body == ErrorBody(NoteNotFound)
    ensures BodyAccepted(body) && !fails && Names(old(t.rows), id) ==>
      var key := KeyOf(id).value;
      && resp == Response(200, MessageOnly("Note updated successfully"))
      && t.rows == old(t.rows)[key := Note(body.title.value, body.description.value,
                                           StoredCategory(body.category),
                                           old(t.rows)[key].createdAt, t.clock)]
      && t.clock == old(t.clock) + 1 && t.nextId == old(t.nextId) && t.issued == old(t.issued)
  {
    if !Truthy(body.title) || !Truthy(body.description) {
      return Response(400, ErrorBody(BodyRequired));
    }
    var r := t.UpdateById(id, body.title, body.description, StoredCategory(body.category), fails);
    if r.Err? {
      return Response(500, ErrorBody("Failed to update note"));
    }
    if r.value == 0 {
      return Response(404, ErrorBody(NoteNotFound));
    }
    resp := Response(200, MessageOnly("Note updated successfully"));
  }

  /** DELETE /api/notes/:id: no id check; removes the named row and nothing else. */
  method Delete(t: Table, id: string, fails: bool) returns (resp: Response)
    requires t.Valid()
    modifies t
    ensures t.Valid()
    ensures !IsSuccess(resp) ==> unchanged(t)
    ensures fails ==> resp == Response(500, ErrorBody("Failed to delete note"))
    ensures resp.status == 404 <==> !fails && !Names(old(t.rows), id)
    ensures resp.status == 404 ==> resp.body == ErrorBody(NoteNotFound)
    ensures !fails && Names(old(t.rows), id) ==>
      && resp == Response(200, MessageOnly("Note deleted successfully"))
      && t.rows == old(t.rows) - {KeyOf(id).value}
      && t.nextId == old(t.nextId) && t.clock == old(t.clock) && t.issued == old(t.issued)
  {
    var r := t.DeleteById(id, fails);
    if r.Err? {
      return Response(500, ErrorBody("Failed to delete note"));
    }
    if r.value == 0 {
      return Response(404, ErrorBody(NoteNotFound));
    }
    resp := Response(200, MessageOnly("Note deleted successfully"));
  }

  /**
   * The application: no fallback route, so Express answers any other request
   * with its own 404. A success changes exactly the row its route names, and
   * no route ever stores an empty title or description.
   */
  method Handle(t: Table, route: Route, fails: bool) returns (resp: Response)
    requires t.Valid()
    modifies t
    ensures t.Valid()
    ensures !IsSuccess(resp) ==> unchanged(t)
    ensures route.ListNotes? ==> unchanged(t)
    ensures route.Unmatched? ==> resp == Response(404, ExpressNotFound)
    ensures old(t.nextId) <= t.nextId && old(t.clock) <= t.clock && old(t.issued) <= t.issued
    ensures FilledRows(old(t.rows)) ==> FilledRows(t.rows)
    ensures route.CreateNote? && IsSuccess(resp) ==>
      && BodyAccepted(route.body) && !fails
      && old(t.nextId) !in old(t.issued) && old(t.nextId) !in old(t.rows)
      && t.nextId == old(t.nextId) + 1 && t.clock == old(t.clock) + 1
      && t.issued == old(t.issued) + {old(t.nextId)}
      && t.rows == old(t.rows)[old(t.nextId) := Note(route.body.title.value, route.body.description.value,
                                                     StoredCategory(route.body.category), t.clock, t.clock)]
    ensures route.UpdateNote? && IsSuccess(resp) ==>
      && BodyAccepted(route.body) && !fails && Names(old(t.rows), route.id)
      && t.nextId == old(t.nextId) && t.clock == old(t.clock) + 1 && t.issued == old(t.issued)
      && var key := KeyOf(route.id).value;
      && t.rows == old(t.rows)[key := Note(route.body.title.value, route.body.description.value,
                                           StoredCategory(route.body.category),
                                           old(t.rows)[key].createdAt, t.clock)]
    ensures route.DeleteNote? && IsSuccess(resp) ==>
      && !fails && Names(old(t.rows), route.id)
      && t.nextId == old(t.nextId) && t.clock == old(t.clock) && t.issued == old(t.issued)
      && t.rows == old(t.rows) - {KeyOf(route.id).value}
  {
    match route
    case ListNotes(search) => resp := Get(t, search, fails);
    case CreateNote(body) =>
      resp := Post(t, body, fails);
      if IsSuccess(resp) && FilledRows(old(t.rows)) {
        FilledAfterWrite(old(t.rows), old(t.nextId), t.rows[old(t.nextId)]);
      }
    case UpdateNote(id, body) =>
      resp := Put(t, id, body, fails);
      if IsSuccess(resp) && FilledRows(old(t.rows)) {
        FilledAfterWrite(old(t.rows), KeyOf(id).value, t.rows[KeyOf(id).value]);
      }
    case DeleteNote(id) =>
      resp := Delete(t, id, fails);
      if IsSuccess(resp) && FilledRows(old(t.rows)) {
        FilledAfterRemove(old(t.rows), KeyOf(id).value);
      }
    case Unmatched => resp := Response(404, ExpressNotFound);
  }
}
