/** The three catalog tables as one value, the invariant every session keeps, and each
    writing operation as a function from the tables before to the tables after. */
module Store {
  import opened Rows

  /** The stored rows of `cookbooks`, `tags_table` and `borrow_table`, plus each table's
      AUTOINCREMENT counter (its `sqlite_sequence` entry): the largest id the table ever
      handed out, which a DELETE does not lower. */
  datatype Tables = Tables(
    cookbooks: seq<Cookbook>,
    tags: seq<Tag>,
    loans: seq<Loan>,
    cookbookSeq: nat,
    tagSeq: nat,
    loanSeq: nat)

  /** Which message `add_recipe_tags` and `track_borrowed_cookbook` print: the new row's id,
      no cookbook with the given id, a conflicting row (same tag / an open loan), or a failed
      INSERT (the id counter is exhausted). Both functions return None on every path; this
      outcome stands for the printed message, not for a return value. */
  datatype Outcome = Added(id: int) | NotFound | Conflict | StorageError

  datatype Reply<O> = Reply(after: Tables, outcome: O)

  predicate HasCookbook(cookbooks: seq<Cookbook>, id: int)
  {
    exists c :: c in cookbooks && c.id == id
  }

  /** `SELECT cookbook_id FROM tags_table WHERE tag = ?` finds a row: the tag alone is looked
      up, whatever cookbook it belongs to. */
  predicate TagTaken(tags: seq<Tag>, tag: string)
  {
    exists t :: t in tags && t.tag == tag
  }

  /** `SELECT cookbook_id FROM borrow_table WHERE date_returned IS NULL AND cookbook_id = ?`
      finds a row. */
  predicate HasOpenLoan(loans: seq<Loan>, cookbookId: int)
  {
    exists l :: l in loans && l.cookbookId == cookbookId && l.IsOpen()
  }

  ghost predicate CookbookIdsFresh(cookbooks: seq<Cookbook>, counter: nat)
  {
    && (forall i | 0 <= i < |cookbooks| :: 0 < cookbooks[i].id <= counter)
    && (forall i, j | 0 <= i < j < |cookbooks| :: cookbooks[i].id < cookbooks[j].id)
  }

  ghost predicate TagIdsFresh(tags: seq<Tag>, counter: nat)
  {
    && (forall i | 0 <= i < |tags| :: 0 < tags[i].tagId <= counter)
    && (forall i, j | 0 <= i < j < |tags| :: tags[i].tagId < tags[j].tagId)
  }

  ghost predicate LoanIdsFresh(loans: seq<Loan>, counter: nat)
  {
    && (forall i | 0 <= i < |loans| :: 0 < loans[i].borrowId <= counter)
    && (forall i, j | 0 <= i < j < |loans| :: loans[i].borrowId < loans[j].borrowId)
  }

  ghost predicate TagsDistinct(tags: seq<Tag>)
  {
    forall i, j | 0 <= i < j < |tags| :: tags[i].tag != tags[j].tag
  }

  ghost predicate AtMostOneOpenLoan(loans: seq<Loan>)
  {
    forall i, j | 0 <= i < j < |loans| && loans[i].IsOpen() && loans[j].IsOpen() ::
      loans[i].cookbookId != loans[j].cookbookId
  }

  /** No AUTOINCREMENT counter is beyond the largest rowid; SQLite guarantees this of any file. */
  predicate CountersInRange(db: Tables)
  {
    db.cookbookSeq <= MaxRowId && db.tagSeq <= MaxRowId && db.loanSeq <= MaxRowId
  }

  /** The catalog invariant: ids ascend in insertion order and never exceed their table's
      counter, tags are pairwise distinct, every tag and loan names a stored cookbook, and no
      cookbook has two open loans. */
  ghost predicate Valid(db: Tables)
  {
    && CountersInRange(db)
    && CookbookIdsFresh(db.cookbooks, db.cookbookSeq)
    && TagIdsFresh(db.tags, db.tagSeq)
    && LoanIdsFresh(db.loans, db.loanSeq)
    && TagsDistinct(db.tags)
    && (forall t :: t in db.tags ==> HasCookbook(db.cookbooks, t.cookbookId))
    && (forall l :: l in db.loans ==> HasCookbook(db.cookbooks, l.cookbookId))
    && AtMostOneOpenLoan(db.loans)
  }

  /** A database file whose tables were just created. */
  function Empty(): (db: Tables)
    ensures Valid(db)
    ensures db.cookbooks == [] && db.tags == [] && db.loans == []
  {
    Tables([], [], [], 0, 0, 0)
  }

  /** `create_table`: the three DELETEs run unconditionally; the counters survive them. */
  function Reset(db: Tables): (r: Tables)
    ensures r.cookbooks == [] && r.tags == [] && r.loans == []
    ensures r.cookbookSeq == db.cookbookSeq && r.tagSeq == db.tagSeq && r.loanSeq == db.loanSeq
  {
    db.(cookbooks := [], tags := [], loans := [])
  }

  /** `insert_cookbook`: a NULL title or author violates NOT NULL, and an exhausted counter
      makes the INSERT fail; either way nothing is stored and the result is None. Otherwise one
      row is appended under the next id, which is returned. */
  function InsertCookbook(db: Tables, book: NewCookbook): (r: Reply<Option<int>>)
    ensures r.outcome.Some? <==>
      book.title.Some? && book.author.Some? && db.cookbookSeq < MaxRowId
    ensures r.outcome.None? ==> r.after == db
    ensures r.outcome.Some? ==>
      && r.outcome.value > db.cookbookSeq
      && r.after == db.(
           cookbooks := db.cookbooks + [Cookbook(r.outcome.value, book.title.value, book.author.value,
             book.yearPublished, book.aestheticRating, book.instagramWorthy, book.coverColor)],
           cookbookSeq := r.outcome.value)
  {
    if book.title.None? || book.author.None? || db.cookbookSeq >= MaxRowId then
      Reply(db, None)
    else
      var id := db.cookbookSeq + 1;
      Reply(db.(
        cookbooks := db.cookbooks + [Cookbook(id, book.title.value, book.author.value,
          book.yearPublished, book.aestheticRating, book.instagramWorthy, book.coverColor)],
        cookbookSeq := id), Some(id))
  }

  /** `add_recipe_tags`: first the cookbook must exist, then no tag row may carry the same
      text (for any cookbook); only then is `(tag, cookbookId)` appended under a fresh id. */
  function AddTag(db: Tables, cookbookId: int, tag: string): (r: Reply<Outcome>)
    ensures r.outcome.NotFound? <==> !HasCookbook(db.cookbooks, cookbookId)
    ensures r.outcome.Conflict? <==> HasCookbook(db.cookbooks, cookbookId) && TagTaken(db.tags, tag)
    ensures r.outcome.StorageError? <==>
      HasCookbook(db.cookbooks, cookbookId) && !TagTaken(db.tags, tag) && db.tagSeq >= MaxRowId
    ensures !r.outcome.Added? ==> r.after == db
    ensures r.outcome.Added? ==>
      && r.outcome.id > db.tagSeq
      && r.after == db.(tags := db.tags + [Tag(r.outcome.id, tag, cookbookId)], tagSeq := r.outcome.id)
  {
    if !HasCookbook(db.cookbooks, cookbookId) then Reply(db, NotFound)
    else if TagTaken(db.tags, tag) then Reply(db, Conflict)
    else if db.tagSeq >= MaxRowId then Reply(db, StorageError)
    else
      var id := db.tagSeq + 1;
      Reply(db.(tags := db.tags + [Tag(id, tag, cookbookId)], tagSeq := id), Added(id))
  }

  /** `track_borrowed_cookbook`: first the cookbook must exist, then it must have no open
      loan; only then is an open loan appended under a fresh id. */
  function Borrow(db: Tables, cookbookId: int, friendName: string, dateBorrowed: string): (r: Reply<Outcome>)
    ensures r.outcome.NotFound? <==> !HasCookbook(db.cookbooks, cookbookId)
    ensures r.outcome.Conflict? <==>
      HasCookbook(db.cookbooks, cookbookId) && HasOpenLoan(db.loans, cookbookId)
    ensures r.outcome.StorageError? <==>
      HasCookbook(db.cookbooks, cookbookId) && !HasOpenLoan(db.loans, cookbookId) && db.loanSeq >= MaxRowId
    ensures !r.outcome.Added? ==> r.after == db
    ensures r.outcome.Added? ==>
      && r.outcome.id > db.loanSeq
      && r.after == db.(
           loans := db.loans + [Loan(r.outcome.id, friendName, dateBorrowed, None, cookbookId)],
           loanSeq := r.outcome.id)
  {
    if !HasCookbook(db.cookbooks, cookbookId) then Reply(db, NotFound)
    else if HasOpenLoan(db.loans, cookbookId) then Reply(db, Conflict)
    else if db.loanSeq >= MaxRowId then Reply(db, StorageError)
    else
      var id := db.loanSeq + 1;
      Reply(db.(loans := db.loans + [Loan(id, friendName, dateBorrowed, None, cookbookId)], loanSeq := id),
        Added(id))
  }

  /** The loan rows after `UPDATE borrow_table SET date_returned = ? WHERE borrow_id == ?`. */
  function SetReturned(loans: seq<Loan>, borrowId: int, dateReturned: string): (r: seq<Loan>)
    ensures |r| == |loans|
    ensures forall i | 0 <= i < |loans| ::
      && r[i].borrowId == loans[i].borrowId
      && r[i].friendName == loans[i].friendName
      && r[i].dateBorrowed == loans[i].dateBorrowed
      && r[i].cookbookId == loans[i].cookbookId
      && r[i].dateReturned == (if loans[i].borrowId == borrowId then Some(dateReturned) else loans[i].dateReturned)
  {
    seq(|loans|, i requires 0 <= i < |loans| =>
      if loans[i].borrowId == borrowId then loans[i].(dateReturned := Some(dateReturned)) else loans[i])
  }

  /** The return step of the menu: the loan with that id gets the date, open or already
      closed; every other row is untouched, and an unknown id changes nothing. */
  function Return(db: Tables, borrowId: int, dateReturned: string): (r: Tables)
    ensures r.cookbooks == db.cookbooks && r.tags == db.tags
    ensures r.cookbookSeq == db.cookbookSeq && r.tagSeq == db.tagSeq && r.loanSeq == db.loanSeq
    ensures r.loans == SetReturned(db.loans, borrowId, dateReturned)
    ensures (forall l :: l in db.loans ==> l.borrowId != borrowId) ==> r == db
  {
    db.(loans := SetReturned(db.loans, borrowId, dateReturned))
  }
}
