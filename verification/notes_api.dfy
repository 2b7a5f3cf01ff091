/**
 * The `/api/notes` handlers of index.js: each validates and normalises the
 * request, runs one statement against the notes table, and maps the outcome
 * to a status and a JSON body. The table changes only on the success path.
 */
module NotesApi {
  import opened Wrappers
  import opened JsStrings
  import opened JsNumbers
  import opened SqlLike
  import opened NotesTable
  import opened Http

  const BodyRequired := "Title and description are required and cannot be empty"
  const InvalidId := "Invalid note ID"
  const NoteNotFound := "Note not found"
  const RouteNotFound := "Route not found"

  /** `x?.trim()` is truthy: `x` is present and not blank. */
  function HasText(x: Option<string>): (r: bool)
    ensures r <==> x.Some? && !AllWhitespace(x.value)
  {
    x.Some? && Trim(x.value) != ""
  }

  /** The body check of POST and PUT: `!title?.trim() || !description?.trim()` is false. */
  function BodyAccepted(b: NoteBody): (r: bool)
    ensures r <==> b.title.Some? && b.description.Some?
                   && !AllWhitespace(b.title.value) && !AllWhitespace(b.description.value)
  {
    HasText(b.title) && HasText(b.description)
  }

  /**
   * The stored category `(category || 'Others').trim()`: "Others" when the
   * category is missing or empty, "" when it is whitespace only, and never
   * with whitespace at either end.
   */
  function StoredCategory(category: Option<string>): (r: string)
    ensures !Truthy(category) ==> r == "Others"
    ensures r == "" <==> Truthy(category) && AllWhitespace(category.value)
    ensures r != "" ==> !IsJsWhitespace(r[0]) && !IsJsWhitespace(r[|r| - 1])
  {
    assert !AllWhitespace("Others") by { assert !IsJsWhitespace("Others"[0]); }
    Trim(OrElse(category, "Others"))
  }

  /**
   * `Number.isInteger(parseInt(id))`: a decimal digit follows the leading
   * whitespace and sign, and every id that names a row passes.
   */
  function IdAccepted(id: string): (r: bool)
    ensures r ==> DigitAfterSign(id[LeadingSpace(id)..])
    ensures KeyOf(id).Some? ==> r
  {
    assert KeyOf(id).Some? ==> ParseInt(id).Some? by {
      if KeyOf(id).Some? {
        ParseIntOfKey(id);
      }
    }
    ParseNumeralNeedsDigit(id[LeadingSpace(id)..]);
    ParseInt(id).Some?
  }

  /** Every path id that names a row passes the id check. */
  lemma NamingIdsAreAccepted(id: string)
    requires KeyOf(id).Some?
    ensures IdAccepted(id)
  {
    ParseIntOfKey(id);
  }

  /**
   * An id with trailing text passes the id check although it names no row,
   * so PUT and DELETE answer 404 for it: "7abc" is read as 7 by parseInt.
   */
  lemma SuffixedIdAcceptedButNamesNoRow(n: nat)
    ensures IdAccepted(Decimal(n) + "abc") && ParseInt(Decimal(n) + "abc") == Some(n)
    ensures KeyOf(Decimal(n) + "abc") == None
  {
    SuffixedIdParses(Decimal(n) + "abc", n);
    SuffixedIdIsNoKey(Decimal(n) + "abc", n);
  }

  lemma SuffixedIdParses(s: string, n: nat)
    requires s == Decimal(n) + "abc"
    ensures ParseInt(s) == Some(n)
  {
    assert s[0] == Decimal(n)[0];
    ParseIntAfterWhitespace("", s);
    assert "" + s == s;
    ParseNumeralOfDecimal(n, "abc");
  }

  lemma SuffixedIdIsNoKey(s: string, n: nat)
    requires s == Decimal(n) + "abc"
    ensures KeyOf(s) == None
  {
    assert s[0] == Decimal(n)[0];
    DigitRunOfNumeral(Decimal(n), "abc", 10);
    assert DigitRun(s, 10) < |s|;
  }

  /**
   * The WHERE clause GET builds: none for a falsy search, else three LIKEs.
   * A row is listed exactly when the search is absent or empty, or its
   * title, category or description contains the term.
   */
  function SearchFilter(search: Option<string>): (f: Filter)
    ensures forall n :: Matches(n, f) <==>
      || !Truthy(search)
      || ContainsFolded(n.title, search.value)
      || ContainsFolded(n.category, search.value)
      || ContainsFolded(n.description, search.value)
  {
    if Truthy(search) then
      var term := search.value;
      var cols := [Title, Category, Description];
      assert cols[1..] == [Category, Description] && cols[1..][1..] == [Description];
      assert [Description][1..] == [];
      forall n ensures AnyColumnLike(n, term, cols) <==>
        ContainsFolded(n.title, term) || ContainsFolded(n.category, term) || ContainsFolded(n.description, term)
      {
        assert AnyColumnLike(n, term, [Description]) == ContainsFolded(n.description, term);
        assert AnyColumnLike(n, term, [Category, Description])
            == (ContainsFolded(n.category, term) || AnyColumnLike(n, term, [Description]));
      }
      LikeAny(term, cols)
    else AllRows
  }

  /** GET /api/notes: lists the notes, filtered by `search`, newest first. */
  method Get(t: Table, search: Option<string>, fails: bool) returns (resp: Response)
    requires t.Valid()
    ensures fails ==> resp == Response(500, ErrorBody("Failed to retrieve notes"))
    ensures !fails ==> resp.status == 200 && resp.body.NoteList?
                       && IsListing(t.rows, SearchFilter(search), resp.body.rows)
  {
    var filter := AllRows;
    if Truthy(search) {
      filter := LikeAny(search.value, [Title, Category, Description]);
    }
    var r := t.Select(filter, fails);
    if r.Err? {
      return Response(500, ErrorBody("Failed to retrieve notes"));
    }
    resp := Response(200, NoteList(r.value));
  }

  /**
   * POST /api/notes: stores the trimmed title and description and the
   * normalised category, and answers 201 with the new id and an echo of the
   * request as sent (untrimmed, category `category || 'Others'`).
   */
  method Post(t: Table, body: NoteBody, fails: bool) returns (resp: Response)
    requires t.Valid()
    modifies t
    ensures t.Valid()
    ensures !IsSuccess(resp) ==> unchanged(t)
    ensures !BodyAccepted(body) ==> resp == Response(400, ErrorBody(BodyRequired))
    ensures BodyAccepted(body) && fails ==> resp == Response(500, ErrorBody("Failed to create note"))
    ensures BodyAccepted(body) && !fails ==>
      var id := old(t.nextId);
      && resp == Response(201, CreatedWithNote(id, "Note created successfully",
                   Echo(body.title.value, body.description.value, OrElse(body.category, "Others"), id)))
      && id !in old(t.issued) && (forall a :: a in old(t.issued) ==> a < id)
      && t.rows == old(t.rows)[id := Note(Trim(body.title.value), Trim(body.description.value),
                                          StoredCategory(body.category), t.clock, t.clock)]
      && t.nextId == id + 1 && t.clock == old(t.clock) + 1 && t.issued == old(t.issued) + {id}
  {
    if !BodyAccepted(body) {
      return Response(400, ErrorBody(BodyRequired));
    }
    var title, description := body.title.value, body.description.value;
    var r := t.Insert(Some(Trim(title)), Some(Trim(description)), Some(StoredCategory(body.category)), fails);
    if r.Err? {
      return Response(500, ErrorBody("Failed to create note"));
    }
    var echo := Echo(title, description, OrElse(body.category, "Others"), r.value);
    resp := Response(201, CreatedWithNote(r.value, "Note created successfully", echo));
  }

  /**
   * PUT /api/notes/:id: checks the body before the id, then rewrites title,
   * description, category and updated_at of the named row only.
   */
  method Put(t: Table, id: string, body: NoteBody, fails: bool) returns (resp: Response)
    requires t.Valid()
    modifies t
    ensures t.Valid()
    ensures !IsSuccess(resp) ==> unchanged(t)
    ensures !BodyAccepted(body) ==> resp == Response(400, ErrorBody(BodyRequired))
    ensures BodyAccepted(body) && !IdAccepted(id) ==> resp == Response(400, ErrorBody(InvalidId))
    ensures BodyAccepted(body) && IdAccepted(id) && fails ==> resp == Response(500, ErrorBody("Failed to update note"))
    ensures resp.status == 404 <==> BodyAccepted(body) && IdAccepted(id) && !fails && !Names(old(t.rows), id)
    ensures resp.status == 404 ==> resp.body == ErrorBody(NoteNotFound)
    ensures BodyAccepted(body) && !fails && Names(old(t.rows), id) ==>
      var key := KeyOf(id).value;
      && resp == Response(200, MessageWithId("Note updated successfully", key))
      && ParseInt(id) == Some(key)
      && t.rows == old(t.rows)[key := Note(Trim(body.title.value), Trim(body.description.value),
                                           StoredCategory(body.category),
                                           old(t.rows)[key].createdAt, t.clock)]
      && t.clock == old(t.clock) + 1 && t.nextId == old(t.nextId) && t.issued == old(t.issued)
  {
    if !BodyAccepted(body) {
      return Response(400, ErrorBody(BodyRequired));
    }
    if !IdAccepted(id) {
      return Response(400, ErrorBody(InvalidId));
    }
    if KeyOf(id).Some? {
      ParseIntOfKey(id);
    }
    var r := t.UpdateById(id, Some(Trim(body.title.value)), Some(Trim(body.description.value)),
                          StoredCategory(body.category), fails);
    if r.Err? {
      return Response(500, ErrorBody("Failed to update note"));
    }
    if r.value == 0 {
      return Response(404, ErrorBody(NoteNotFound));
    }
    resp := Response(200, MessageWithId("Note updated successfully", ParseInt(id).value));
  }

  /** DELETE /api/notes/:id: removes the named row and nothing else. */
  method Delete(t: Table, id: string, fails: bool) returns (resp: Response)
    requires t.Valid()
    modifies t
    ensures t.Valid()
    ensures !IsSuccess(resp) ==> unchanged(t)
    ensures !IdAccepted(id) ==> resp == Response(400, ErrorBody(InvalidId))
    ensures IdAccepted(id) && fails ==> resp == Response(500, ErrorBody("Failed to delete note"))
    ensures resp.status == 404 <==> IdAccepted(id) && !fails && !Names(old(t.rows), id)
    ensures resp.status == 404 ==> resp.body == ErrorBody(NoteNotFound)
    ensures !fails && Names(old(t.rows), id) ==>
      var key := KeyOf(id).value;
      && resp == Response(200, MessageWithId("Note deleted successfully", key))
      && ParseInt(id) == Some(key)
      && t.rows == old(t.rows) - {key}
      && key !in t.rows
      && t.nextId == old(t.nextId) && t.clock == old(t.clock) && t.issued == old(t.issued)
  {
    if KeyOf(id).Some? {
      NamingIdsAreAccepted(id);
      ParseIntOfKey(id);
    }
    if !IdAccepted(id) {
      return Response(400, ErrorBody(InvalidId));
    }
    var r := t.DeleteById(id, fails);
    if r.Err? {
      return Response(500, ErrorBody("Failed to delete note"));
    }
    if r.value == 0 {
      return Response(404, ErrorBody(NoteNotFound));
    }
    resp := Response(200, MessageWithId("Note deleted successfully", ParseInt(id).value));
  }

  /** Deleting the same id twice: once the first call removes the row, the second answers 404. */
  method DeleteTwice(t: Table, id: string) returns (first: Response, second: Response)
    requires t.Valid()
    modifies t
    ensures t.Valid()
    ensures first.status == 200 <==> Names(old(t.rows), id)
    ensures first.status == 200 ==> second == Response(404, ErrorBody(NoteNotFound))
  {
    first := Delete(t, id, false);
    second := Delete(t, id, false);
  }

  /**
   * The application: each matched route goes to its handler; any other
   * request gets the fallback 404. Whatever the request, a response other
   * than 200 or 201 leaves the table as it was; a success changes exactly
   * the row its route names, and no route ever stores an empty title or
   * description.
   */
  method Handle(t: Table, route: Route, fails: bool) returns (resp: Response)
    requires t.Valid()
    modifies t
    ensures t.Valid()
    ensures !IsSuccess(resp) ==> unchanged(t)
    ensures route.ListNotes? ==> unchanged(t)
    ensures route.Unmatched? ==> resp == Response(404, ErrorBody(RouteNotFound))
    ensures old(t.nextId) <= t.nextId && old(t.clock) <= t.clock && old(t.issued) <= t.issued
    ensures FilledRows(old(t.rows)) ==> FilledRows(t.rows)
    ensures route.CreateNote? && IsSuccess(resp) ==>
      && BodyAccepted(route.body) && !fails
      && old(t.nextId) !in old(t.issued) && old(t.nextId) !in old(t.rows)
      && t.nextId == old(t.nextId) + 1 && t.clock == old(t.clock) + 1
      && t.issued == old(t.issued) + {old(t.nextId)}
      && t.rows == old(t.rows)[old(t.nextId) := Note(Trim(route.body.title.value), Trim(route.body.description.value),
                                                     StoredCategory(route.body.category), t.clock, t.clock)]
    ensures route.UpdateNote? && IsSuccess(resp) ==>
      && BodyAccepted(route.body) && !fails && Names(old(t.rows), route.id)
      && t.nextId == old(t.nextId) && t.clock == old(t.clock) + 1 && t.issued == old(t.issued)
      && var key := KeyOf(route.id).value;
      && t.rows == old(t.rows)[key := Note(Trim(route.body.title.value), Trim(route.body.description.value),
                                           StoredCategory(route.body.category),
                                           old(t.rows)[key].createdAt, t.clock)]
    ensures route.DeleteNote? && IsSuccess(resp) ==>
      && !fails && Names(old(t.rows), route.id)
      && t.nextId == old(t.nextId) && t.clock == old(t.clock) && t.issued == old(t.issued)
      && t.rows == old(t.rows) - {KeyOf(route.id).value}
  {
    match route
    case ListNotes(search) => resp := Get(t, search, fails);
    case CreateNote(body) =>
      resp := Post(t, body, fails);
      if IsSuccess(resp) && FilledRows(old(t.rows)) {
        FilledAfterWrite(old(t.rows), old(t.nextId), t.rows[old(t.nextId)]);
      }
    case UpdateNote(id, body) =>
      resp := Put(t, id, body, fails);
      if IsSuccess(resp) && FilledRows(old(t.rows)) {
        FilledAfterWrite(old(t.rows), KeyOf(id).value, t.rows[KeyOf(id).value]);
      }
    case DeleteNote(id) =>
      resp := Delete(t, id, fails);
      if IsSuccess(resp) && FilledRows(old(t.rows)) {
        FilledAfterRemove(old(t.rows), KeyOf(id).value);
      }
    case Unmatched => resp := Response(404, ErrorBody(RouteNotFound));
  }
}
