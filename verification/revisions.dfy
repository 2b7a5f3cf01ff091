/**
 * How the handlers of server.js (the earlier revision) and index.js (the
 * later one) differ, stated over their validation and search functions.
 */
module Revisions {
  import opened Wrappers
  import opened JsStrings
  import opened SqlLike
  import opened NotesTable
  import opened Http
  import Current = NotesApi
  import Earlier = LegacyNotesApi

  /** Every body the later check accepts, the earlier one accepts too. */
  lemma BodyCheckStricter(b: NoteBody)
    ensures Current.BodyAccepted(b) ==> Earlier.BodyAccepted(b)
  {
    if Current.BodyAccepted(b) {
      assert !AllWhitespace(b.title.value) && !AllWhitespace(b.description.value);
    }
  }

  /**
   * The bodies only the earlier check accepts are those whose title or
   * description is non-empty but whitespace only.
   */
  lemma BodyCheckDifference(b: NoteBody)
    ensures Earlier.BodyAccepted(b) && !Current.BodyAccepted(b) <==>
      && b.title.Some? && b.description.Some?
      && b.title.value != "" && b.description.value != ""
      && (AllWhitespace(b.title.value) || AllWhitespace(b.description.value))
  {
  }

  /** A one-space title: accepted and stored verbatim by server.js, refused by index.js. */
  lemma BlankTitleWitness()
    ensures Earlier.BodyAccepted(NoteBody(Some(" "), Some("x"), None))
    ensures !Current.BodyAccepted(NoteBody(Some(" "), Some("x"), None))
  {
    assert AllWhitespace(" ");
  }

  /** A category with whitespace at one of its ends. */
  predicate Padded(category: Option<string>) {
    Truthy(category) && (IsJsWhitespace(category.value[0]) || IsJsWhitespace(category.value[|category.value| - 1]))
  }

  /**
   * The two revisions store different categories exactly when the category
   * is truthy and has whitespace at an end; index.js then stores its trim.
   */
  lemma CategoriesDifferIffPadded(category: Option<string>)
    ensures Current.StoredCategory(category) != Earlier.StoredCategory(category) <==> Padded(category)
    ensures Current.StoredCategory(category) == Trim(Earlier.StoredCategory(category))
  {
    if Truthy(category) && !Padded(category) {
      TrimOfTrimmed(category.value);
    }
    if !Truthy(category) {
      TrimOfTrimmed("Others");
    }
  }

  /** A whitespace-only category: server.js keeps it, index.js stores "". */
  lemma BlankCategoryWitness()
    ensures Earlier.StoredCategory(Some("  ")) == "  "
    ensures Current.StoredCategory(Some("  ")) == ""
  {
    assert AllWhitespace("  ");
  }

  /** Whitespace at neither end of any present field. */
  predicate Untrimmable(x: Option<string>) {
    x.None? || x.value == "" || (!IsJsWhitespace(x.value[0]) && !IsJsWhitespace(x.value[|x.value| - 1]))
  }

  /**
   * On bodies with nothing to trim the two revisions agree: they accept the
   * same bodies and store the same title, description and category.
   */
  lemma AgreeWithoutSurroundingWhitespace(b: NoteBody)
    requires Untrimmable(b.title) && Untrimmable(b.description) && Untrimmable(b.category)
    ensures Current.BodyAccepted(b) <==> Earlier.BodyAccepted(b)
    ensures Current.BodyAccepted(b) ==> Trim(b.title.value) == b.title.value
                                        && Trim(b.description.value) == b.description.value
    ensures Current.StoredCategory(b.category) == Earlier.StoredCategory(b.category)
  {
    if b.title.Some? { TrimOfTrimmed(b.title.value); }
    if b.description.Some? { TrimOfTrimmed(b.description.value); }
    CategoriesDifferIffPadded(b.category);
  }

  /** Every row the earlier search lists, the later search lists too. */
  lemma SearchWidened(search: Option<string>, n: Note)
    ensures Matches(n, Earlier.SearchFilter(search)) ==> Matches(n, Current.SearchFilter(search))
  {
  }

  /** "buy milk" contains "milk", from its fifth character on. */
  lemma MilkIn(value: string)
    requires value == "buy milk"
    ensures ContainsFolded(value, "milk")
  {
    ExactOccurrenceMatches(value, "milk", 4);
  }

  /** A value with no "m" or "M" does not contain "milk". */
  lemma NoMilkIn(value: string)
    requires forall i :: 0 <= i < |value| ==> value[i] != 'm' && value[i] != 'M'
    ensures !ContainsFolded(value, "milk")
  {
    NoMatchWithoutFirstChar(value, "milk");
  }

  /** Neither "Groceries" nor "Errand" contains "milk". */
  lemma MilkAbsent(title: string, category: string)
    requires title == "Groceries" && category == "Errand"
    ensures !ContainsFolded(title, "milk") && !ContainsFolded(category, "milk")
  {
    NoMilkIn(title);
    NoMilkIn(category);
  }

  /** A term found only in the description: listed by index.js, not by server.js. */
  lemma DescriptionOnlyWitness(title: string, description: string, category: string, term: string)
    requires title == "Groceries" && description == "buy milk" && category == "Errand" && term == "milk"
    ensures Matches(Note(title, description, category, 1, 1), Current.SearchFilter(Some(term)))
    ensures !Matches(Note(title, description, category, 1, 1), Earlier.SearchFilter(Some(term)))
  {
    MilkIn(description);
    MilkAbsent(title, category);
  }

  /**
   * Every id index.js rejects with 400 names no row, so server.js, which does
   * not check ids, answers 404 for it instead.
   */
  lemma RejectedIdsNameNoRow(id: string, rows: map<int, Note>)
    ensures !Current.IdAccepted(id) ==> !Names(rows, id)
  {
    if KeyOf(id).Some? {
      Current.NamingIdsAreAccepted(id);
    }
  }
}
