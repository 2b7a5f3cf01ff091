/**
 * The `notes` table of database.js with the SQL engine replaced by the table
 * semantics the statements spell out: an id-keyed map of rows, the
 * AUTOINCREMENT counter, and a logical clock standing for CURRENT_TIMESTAMP.
 */
module NotesTable {
  import opened Wrappers
  import opened JsNumbers
  import opened SqlLike
  import opened JsStrings

  /** The columns of a row other than its id. */
  datatype Note = Note(title: string, description: string, category: string, createdAt: nat, updatedAt: nat)

  /** A row as SELECT * returns it. */
  datatype Row = Row(id: int, note: Note)

  /** The text columns a search may compare against. */
  datatype Column = Title | Description | Category

  function ColumnValue(n: Note, c: Column): string {
    match c
    case Title => n.title
    case Description => n.description
    case Category => n.category
  }

  /** The WHERE clause of a SELECT: none, or `c1 LIKE '%term%' OR c2 LIKE ...`. */
  datatype Filter = AllRows | LikeAny(term: string, columns: seq<Column>)

  /** One of `columns` of `n` contains `term`. */
  predicate AnyColumnLike(n: Note, term: string, columns: seq<Column>) {
    |columns| > 0 && (ContainsFolded(ColumnValue(n, columns[0]), term) || AnyColumnLike(n, term, columns[1..]))
  }

  predicate Matches(n: Note, f: Filter) {
    match f
    case AllRows => true
    case LikeAny(term, columns) => AnyColumnLike(n, term, columns)
  }

  /** What the engine reports instead of a result. */
  datatype DbError = IoError | NotNullViolation

  /**
   * The row id a bound text parameter compares equal to in `WHERE id = ?`: a
   * numeral of an optional sign and decimal digits. Any other text names no
   * row.
   */
  function KeyOf(bound: string): (r: Option<int>)
    ensures r.Some? ==> SignLength(bound) < |bound| && AllDigitsOf(bound[SignLength(bound)..], 10)
    ensures r.Some? && r.value < 0 ==> bound[0] == '-'
  {
    var negative := |bound| > 0 && bound[0] == '-';
    var digits := bound[SignLength(bound)..];
    if digits != [] && DigitRun(digits, 10) == |digits| then
      assert digits[..|digits|] == digits;
      var magnitude: int := NumeralValue(digits, 10);
      Some(if negative then -magnitude else magnitude)
    else None
  }

  /** `WHERE id = ?` with `bound` selects a row of `rows`. */
  predicate Names(rows: map<int, Note>, bound: string) {
    KeyOf(bound).Some? && KeyOf(bound).value in rows
  }

  /** Every row has a non-empty title and description, as the handlers' body checks keep it. */
  ghost predicate FilledRows(rows: map<int, Note>) {
    forall id :: id in rows ==> rows[id].title != "" && rows[id].description != ""
  }

  /** Writing a row whose title and description are non-empty keeps every row filled. */
  lemma FilledAfterWrite(rows: map<int, Note>, id: int, n: Note)
    requires FilledRows(rows) && n.title != "" && n.description != ""
    ensures FilledRows(rows[id := n])
  {
  }

  /** Removing a row keeps every remaining row filled. */
  lemma FilledAfterRemove(rows: map<int, Note>, id: int)
    requires FilledRows(rows)
    ensures FilledRows(rows - {id})
  {
  }

  /** The decimal numeral of an id, as a client writes it into a path, names that id. */
  lemma KeyOfDecimal(n: int)
    ensures KeyOf(Numeral(n)) == Some(n)
  {
    var m: nat := if n < 0 then -n else n;
    var d := Decimal(m);
    var s := Numeral(n);
    assert IsDecimalDigit(d[0]);
    assert SignLength(s) == (if n < 0 then 1 else 0) && s[SignLength(s)..] == d by {
      if n < 0 {
        assert s[0] == '-' && s[1..] == d;
      }
    }
    DigitRunOfNumeral(d, [], 10);
    assert d + [] == d;
    DecimalValue(m);
  }

  /** Whenever a path id names a row, `parseInt` of it is that row's id. */
  lemma ParseIntOfKey(bound: string)
    requires KeyOf(bound).Some?
    ensures ParseInt(bound) == KeyOf(bound)
  {
    var digits := if bound[0] == '-' || bound[0] == '+' then bound[1..] else bound;
    assert digits[..|digits|] == digits;
    assert !IsJsWhitespace(bound[0]) by {
      assert bound[0] == '-' || bound[0] == '+' || bound[0] == digits[0];
    }
    assert bound[LeadingSpace(bound)..] == bound;
    assert |digits| >= 2 ==> IsDecimalDigit(digits[1]);
  }

  /** Listing order: newest `created_at` first. */
  predicate NewestFirst(s: seq<Row>) {
    forall i, j :: 0 <= i < j < |s| ==> s[i].note.createdAt >= s[j].note.createdAt
  }

  /** No row appears twice. */
  predicate UniqueIds(s: seq<Row>) {
    forall i, j :: 0 <= i < j < |s| ==> s[i].id != s[j].id
  }

  /** Some entry of `out` is the row with id `id`. */
  ghost predicate HasRow(out: seq<Row>, id: int) {
    exists i :: 0 <= i < |out| && out[i].id == id
  }

  /**
   * `out` is a result of `SELECT * FROM notes [WHERE f] ORDER BY created_at
   * DESC`: exactly the rows of `rows` that match `f`, each once, newest first.
   */
  ghost predicate IsListing(rows: map<int, Note>, f: Filter, out: seq<Row>) {
    && (forall i :: 0 <= i < |out| ==> out[i].id in rows && rows[out[i].id] == out[i].note && Matches(out[i].note, f))
    && (forall id :: id in rows && Matches(rows[id], f) ==> HasRow(out, id))
    && UniqueIds(out)
    && NewestFirst(out)
  }

  /** No two rows were created at the same instant. */
  ghost predicate DistinctCreation(rows: map<int, Note>) {
    forall i, j :: i in rows && j in rows && i != j ==> rows[i].createdAt != rows[j].createdAt
  }

  /** How many rows at the front of `s` were created after `x`: where `x` goes in a listing. */
  function NewerCount(s: seq<Row>, x: Row): (k: nat)
    ensures k <= |s|
    ensures forall i :: 0 <= i < k ==> s[i].note.createdAt > x.note.createdAt
    ensures k < |s| ==> s[k].note.createdAt <= x.note.createdAt
  {
    if |s| > 0 && s[0].note.createdAt > x.note.createdAt then
      var k' := NewerCount(s[1..], x);
      assert forall i :: 1 <= i < k' + 1 ==> s[i] == s[1..][i - 1];
      k' + 1
    else 0
  }

  /** Inserting a row at its place keeps a listing newest first. */
  lemma InsertKeepsOrder(s: seq<Row>, x: Row)
    requires NewestFirst(s)
    ensures NewestFirst(s[..NewerCount(s, x)] + [x] + s[NewerCount(s, x)..])
  {
    var k := NewerCount(s, x);
    var r := s[..k] + [x] + s[k..];
    forall i, j | 0 <= i < j < |r| ensures r[i].note.createdAt >= r[j].note.createdAt {
      if j < k {
        assert r[i] == s[i] && r[j] == s[j];
      } else if j == k {
        assert r[i] == s[i];
      } else if i == k {
        assert r[j] == s[j - 1];
        assert s[k].note.createdAt >= s[j - 1].note.createdAt;
      } else if i < k {
        assert r[i] == s[i] && r[j] == s[j - 1];
      } else {
        assert r[i] == s[i - 1] && r[j] == s[j - 1];
      }
    }
  }

  /** The newest matching row heads every listing. */
  lemma ListingHeadsAgree(rows: map<int, Note>, f: Filter, a: seq<Row>, b: seq<Row>)
    requires DistinctCreation(rows)
    requires IsListing(rows, f, a) && IsListing(rows, f, b)
    requires a != []
    ensures b != [] && a[0] == b[0]
  {
    assert HasRow(b, a[0].id);
    var j :| 0 <= j < |b| && b[j].id == a[0].id;
    assert HasRow(a, b[0].id);
    var i :| 0 <= i < |a| && a[i].id == b[0].id;
    assert a[0].note.createdAt >= a[i].note.createdAt == b[0].note.createdAt;
    assert b[0].note.createdAt >= b[j].note.createdAt == a[0].note.createdAt;
  }

  /** Dropping the head of a listing lists the table without that row. */
  lemma ListingTail(rows: map<int, Note>, f: Filter, a: seq<Row>)
    requires IsListing(rows, f, a) && a != []
    ensures IsListing(rows - {a[0].id}, f, a[1..])
  {
    var rest := rows - {a[0].id};
    forall id | id in rest && Matches(rest[id], f)
      ensures HasRow(a[1..], id)
    {
      assert HasRow(a, id);
      var k :| 0 <= k < |a| && a[k].id == id;
      assert a[1..][k - 1].id == id;
    }
  }

  /**
   * With creation times distinct, ORDER BY created_at DESC leaves no choice:
   * any two listings of the same rows under the same filter are equal.
   */
  lemma {:induction false} ListingDeterminate(rows: map<int, Note>, f: Filter, a: seq<Row>, b: seq<Row>)
    requires DistinctCreation(rows)
    requires IsListing(rows, f, a) && IsListing(rows, f, b)
    ensures a == b
    decreases |a|
  {
    if a == [] {
      if b != [] {
        ListingHeadsAgree(rows, f, b, a);
      }
    } else {
      ListingHeadsAgree(rows, f, a, b);
      ListingTail(rows, f, a);
      ListingTail(rows, f, b);
      ListingDeterminate(rows - {a[0].id}, f, a[1..], b[1..]);
      assert a == [a[0]] + a[1..] && b == [b[0]] + b[1..];
    }
  }

  /** `x` placed among `s` after every row created later than it. */
  function InsertNewestFirst(s: seq<Row>, x: Row): seq<Row> {
    s[..NewerCount(s, x)] + [x] + s[NewerCount(s, x)..]
  }

  /** Every entry of `out` is a row of `rows` with id below `next` that matches `f`. */
  ghost predicate EntriesBelow(rows: map<int, Note>, f: Filter, next: int, out: seq<Row>) {
    forall i :: 0 <= i < |out| ==>
      out[i].id in rows && out[i].id < next && rows[out[i].id] == out[i].note && Matches(out[i].note, f)
  }

  /** Every row of `rows` with id below `next` that matches `f` has an entry in `out`. */
  ghost predicate CoversBelow(rows: map<int, Note>, f: Filter, next: int, out: seq<Row>) {
    forall id :: id in rows && id < next && Matches(rows[id], f) ==> HasRow(out, id)
  }

  /**
   * The state of a scan in rowid order that has visited every id below
   * `next`: `out` lists exactly the visited rows that match `f`, newest first.
   */
  ghost predicate ScannedBelow(rows: map<int, Note>, f: Filter, next: int, out: seq<Row>) {
    EntriesBelow(rows, f, next, out) && CoversBelow(rows, f, next, out) && UniqueIds(out) && NewestFirst(out)
  }

  /** Where the rows of `s` and `x` end up after the insertion. */
  lemma InsertedPositions(s: seq<Row>, x: Row)
    ensures var r, k := InsertNewestFirst(s, x), NewerCount(s, x);
      && |r| == |s| + 1 && r[k] == x
      && (forall i :: 0 <= i < k ==> r[i] == s[i])
      && (forall i :: k <= i < |s| ==> r[i + 1] == s[i])
  {
  }

  /** Visiting an id with no matching row leaves the listing as it is. */
  lemma VisitSkips(rows: map<int, Note>, f: Filter, id: int, out: seq<Row>)
    requires ScannedBelow(rows, f, id, out)
    requires id !in rows || !Matches(rows[id], f)
    ensures ScannedBelow(rows, f, id + 1, out)
  {
  }

  /** Visiting an id whose row matches inserts that row at its place. */
  lemma VisitInserts(rows: map<int, Note>, f: Filter, id: int, out: seq<Row>)
    requires ScannedBelow(rows, f, id, out)
    requires id in rows && Matches(rows[id], f)
    ensures ScannedBelow(rows, f, id + 1, InsertNewestFirst(out, Row(id, rows[id])))
  {
    var row := Row(id, rows[id]);
    InsertKeepsOrder(out, row);
    InsertedPositions(out, row);
    InsertKeepsEntries(rows, f, id, out);
    InsertKeepsUnique(rows, f, id, out);
    InsertKeepsCover(rows, f, id, out);
  }

  lemma InsertKeepsEntries(rows: map<int, Note>, f: Filter, id: int, out: seq<Row>)
    requires EntriesBelow(rows, f, id, out)
    requires id in rows && Matches(rows[id], f)
    ensures EntriesBelow(rows, f, id + 1, InsertNewestFirst(out, Row(id, rows[id])))
  {
    var row := Row(id, rows[id]);
    var k := NewerCount(out, row);
    var out' := InsertNewestFirst(out, row);
    InsertedPositions(out, row);
    forall i | 0 <= i < |out'|
      ensures out'[i].id in rows && out'[i].id < id + 1 && rows[out'[i].id] == out'[i].note && Matches(out'[i].note, f)
    {
      if i != k {
        assert out'[i] == out[if i < k then i else i - 1];
      }
    }
  }

  lemma InsertKeepsUnique(rows: map<int, Note>, f: Filter, id: int, out: seq<Row>)
    requires EntriesBelow(rows, f, id, out) && UniqueIds(out)
    requires id in rows
    ensures UniqueIds(InsertNewestFirst(out, Row(id, rows[id])))
  {
    var row := Row(id, rows[id]);
    var k := NewerCount(out, row);
    var out' := InsertNewestFirst(out, row);
    InsertedPositions(out, row);
    forall i, j | 0 <= i < j < |out'| ensures out'[i].id != out'[j].id {
      if i == k {
        assert out'[j] == out[j - 1] && out[j - 1].id < id;
      } else if j == k {
        assert out'[i] == out[i] && out[i].id < id;
      } else {
        var i0, j0 := if i < k then i else i - 1, if j < k then j else j - 1;
        assert out'[i] == out[i0] && out'[j] == out[j0] && i0 < j0;
      }
    }
  }

  lemma InsertKeepsCover(rows: map<int, Note>, f: Filter, id: int, out: seq<Row>)
    requires CoversBelow(rows, f, id, out)
    requires id in rows
    ensures CoversBelow(rows, f, id + 1, InsertNewestFirst(out, Row(id, rows[id])))
  {
    var row := Row(id, rows[id]);
    var k := NewerCount(out, row);
    var out' := InsertNewestFirst(out, row);
    InsertedPositions(out, row);
    forall id' | id' in rows && id' < id + 1 && Matches(rows[id'], f)
      ensures HasRow(out', id')
    {
      if id' == id {
        assert out'[k].id == id';
      } else {
        assert HasRow(out, id');
        var i :| 0 <= i < |out| && out[i].id == id';
        assert out'[if i < k then i else i + 1].id == id';
      }
    }
  }

  /** The `notes` table, updated in place by each statement. */
  class Table {
    /** The rows, by id. */
    var rows: map<int, Note>
    /** The id AUTOINCREMENT gives the next row: one past every id ever issued. */
    var nextId: int
    /** The logical time of the latest write; CURRENT_TIMESTAMP reads the next tick. */
    var clock: nat
    /** Every id ever issued, including those of deleted rows. */
    ghost var issued: set<int>

    ghost predicate Valid()
      reads this
    {
      && 1 <= nextId
      && (forall id :: id in rows ==> id in issued)
      && (forall id :: id in issued ==> 1 <= id < nextId)
      && (forall id :: id in rows ==> rows[id].createdAt <= rows[id].updatedAt <= clock)
      && DistinctCreation(rows)
    }

    /** CREATE TABLE on a database that has none: empty, first id 1. */
    constructor ()
      ensures Valid()
      ensures rows == map[] && nextId == 1 && issued == {}
    {
      rows := map[];
      nextId := 1;
      clock := 0;
      issued := {};
    }

    /**
     * `INSERT INTO notes (title, description, category, created_at,
     * updated_at) VALUES (?, ?, ?, CURRENT_TIMESTAMP, CURRENT_TIMESTAMP)`.
     * A None title or description is SQL NULL; a None category is the
     * column left out, so its DEFAULT applies.
     */
    method Insert(title: Option<string>, description: Option<string>, category: Option<string>, fails: bool)
      returns (r: Result<int, DbError>)
      requires Valid()
      modifies this
      ensures Valid()
      ensures fails ==> r == Err(IoError) && unchanged(this)
      ensures !fails && (title.None? || description.None?) ==> r == Err(NotNullViolation) && unchanged(this)
      ensures !fails && title.Some? && description.Some? ==>
        && r == Ok(old(nextId))
        && clock == old(clock) + 1
        && rows == old(rows)[r.value := Note(title.value, description.value, category.GetOr("Others"), clock, clock)]
        && nextId == old(nextId) + 1
        && issued == old(issued) + {r.value}
      ensures r.Ok? ==> r.value !in old(issued) && forall a :: a in old(issued) ==> a < r.value
    {
      if fails {
        return Err(IoError);
      }
      if title.None? || description.None? {
        return Err(NotNullViolation);
      }
      var id := nextId;
      clock := clock + 1;
      rows := rows[id := Note(title.value, description.value, category.GetOr("Others"), clock, clock)];
      nextId := nextId + 1;
      issued := issued + {id};
      r := Ok(id);
    }

    /**
     * `UPDATE notes SET title = ?, description = ?, category = ?, updated_at
     * = CURRENT_TIMESTAMP WHERE id = ?`, returning the number of rows changed.
     */
    method UpdateById(id: string, title: Option<string>, description: Option<string>, category: string, fails: bool)
      returns (r: Result<nat, DbError>)
      requires Valid()
      modifies this
      ensures Valid()
      ensures fails ==> r == Err(IoError) && unchanged(this)
      ensures !fails && !Names(old(rows), id) ==> r == Ok(0) && unchanged(this)
      ensures !fails && Names(old(rows), id) && (title.None? || description.None?) ==>
        r == Err(NotNullViolation) && unchanged(this)
      ensures !fails && Names(old(rows), id) && title.Some? && description.Some? ==>
        && r == Ok(1)
        && clock == old(clock) + 1
        && rows == old(rows)[KeyOf(id).value := old(rows)[KeyOf(id).value].(
             title := title.value, description := description.value, category := category, updatedAt := clock)]
        && nextId == old(nextId) && issued == old(issued)
    {
      if fails {
        return Err(IoError);
      }
      if !Names(rows, id) {
        return Ok(0);
      }
      if title.None? || description.None? {
        return Err(NotNullViolation);
      }
      var key := KeyOf(id).value;
      clock := clock + 1;
      rows := rows[key := rows[key].(title := title.value, description := description.value, category := category, updatedAt := clock)];
      r := Ok(1);
    }

    /** `DELETE FROM notes WHERE id = ?`, returning the number of rows removed. */
    method DeleteById(id: string, fails: bool) returns (r: Result<nat, DbError>)
      requires Valid()
      modifies this
      ensures Valid()
      ensures fails ==> r == Err(IoError) && unchanged(this)
      ensures !fails && !Names(old(rows), id) ==> r == Ok(0) && unchanged(this)
      ensures !fails && Names(old(rows), id) ==> r == Ok(1) && rows == old(rows) - {KeyOf(id).value}
      ensures nextId == old(nextId) && clock == old(clock) && issued == old(issued)
    {
      if fails {
        return Err(IoError);
      }
      if !Names(rows, id) {
        return Ok(0);
      }
      rows := rows - {KeyOf(id).value};
      r := Ok(1);
    }

    /**
     * `SELECT * FROM notes [WHERE f] ORDER BY created_at DESC`: a scan in
     * rowid order that sorts each matching row into place.
     */
    method Select(f: Filter, fails: bool) returns (r: Result<seq<Row>, DbError>)
      requires Valid()
      ensures fails <==> r.Err?
      ensures fails ==> r.error == IoError
      ensures !fails ==> IsListing(rows, f, r.value)
    {
      if fails {
        return Err(IoError);
      }
      var out: seq<Row> := [];
      var id := 1;
      while id < nextId
        invariant 1 <= id <= nextId
        invariant ScannedBelow(rows, f, id, out)
      {
        if id in rows && Matches(rows[id], f) {
          VisitInserts(rows, f, id, out);
          out := InsertNewestFirst(out, Row(id, rows[id]));
        } else {
          VisitSkips(rows, f, id, out);
        }
        id := id + 1;
      }
      r := Ok(out);
    }
  }

  /** The connection database.js opens and shares with the handlers. */
  class Connection {
    /** The notes table, or null while the database file holds none. */
    var notes: Table?

    /** Opens a database file holding `existing` (null: no notes table yet). */
    constructor (existing: Table?)
      ensures notes == existing
    {
      notes := existing;
    }

    /**
     * `CREATE TABLE IF NOT EXISTS notes (...)`: creates an empty table when
     * there is none and otherwise leaves the existing table and its rows
     * alone, so running it again changes nothing.
     */
    method Initialize()
      requires notes != null ==> notes.Valid()
      modifies this
      ensures notes != null && notes.Valid()
      ensures old(notes) != null ==> notes == old(notes) && notes.rows == old(notes.rows)
                                     && notes.nextId == old(notes.nextId)
      ensures old(notes) == null ==> fresh(notes) && notes.rows == map[] && notes.nextId == 1
    {
      if notes == null {
        notes := new Table();
      }
    }
  }
}
