/** Requests as the router hands them to a handler, and JSON responses. */
module Http {
  import opened Wrappers
  import opened NotesTable

  /** The fields of a JSON request body; None is a missing or null field. */
  datatype NoteBody = NoteBody(title: Option<string>, description: Option<string>, category: Option<string>)

  /** A request after Express has matched its method and path. */
  datatype Route =
    | ListNotes(search: Option<string>)        // GET /api/notes?search=...
    | CreateNote(body: NoteBody)               // POST /api/notes
    | UpdateNote(id: string, body: NoteBody)   // PUT /api/notes/:id
    | DeleteNote(id: string)                   // DELETE /api/notes/:id
    | Unmatched                                // any other method or path

  /** The `note` object a create response echoes. */
  datatype Echo = Echo(title: string, description: string, category: string, id: int)

  /** The JSON bodies the handlers send. */
  datatype Body =
    | ErrorBody(error: string)                           // { error }
    | NoteList(rows: seq<Row>)                           // [ row, ... ]
    | CreatedWithNote(id: int, message: string, note: Echo)  // { id, message, note }
    | CreatedId(id: int, message: string)                // { id, message }
    | MessageWithId(message: string, id: int)            // { message, id }
    | MessageOnly(message: string)                       // { message }
    | ExpressNotFound                                    // Express's own "Cannot <METHOD> <path>" page

  datatype Response = Response(status: nat, body: Body)

  /** Only a 200 or 201 response reports a statement that ran. */
  predicate IsSuccess(r: Response) {
    r.status == 200 || r.status == 201
  }
}
