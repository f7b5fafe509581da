/** The open catalog database as an object whose three tables are changed in place. Each
    method performs cookbook_manager.py's check-then-write and is proved to leave the tables
    exactly as the matching `Store` function describes. */
module Manager {
  import opened Rows
  import Store
  import Laws

  class Shelf {
    var cookbooks: seq<Cookbook>
    var tags: seq<Tag>
    var loans: seq<Loan>
    // AUTOINCREMENT counters (sqlite_sequence), one per table
    var cookbookSeq: nat
    var tagSeq: nat
    var loanSeq: nat

    function State(): Store.Tables
      reads this
    {
      Store.Tables(cookbooks, tags, loans, cookbookSeq, tagSeq, loanSeq)
    }

    ghost predicate Valid()
      reads this
    {
      Store.Valid(State())
    }

    /** A freshly created database file. */
    constructor ()
      ensures Valid()
      ensures State() == Store.Empty()
    {
      cookbooks, tags, loans := [], [], [];
      cookbookSeq, tagSeq, loanSeq := 0, 0, 0;
    }

    /** A database file left by earlier sessions, holding any rows at all. */
    constructor Reopen(db: Store.Tables)
      requires Store.CountersInRange(db)
      ensures State() == db
    {
      cookbooks, tags, loans := db.cookbooks, db.tags, db.loans;
      cookbookSeq, tagSeq, loanSeq := db.cookbookSeq, db.tagSeq, db.loanSeq;
    }

    /** `create_table`: empties all three tables, whatever they held; the counters are kept.
        Afterwards the catalog invariant holds. */
    method CreateTable()
      requires Store.CountersInRange(State())
      modifies this
      ensures Valid()
      ensures State() == Store.Reset(old(State()))
    {
      Laws.ResetEmptiesCatalog(State());
      cookbooks := [];
      tags := [];
      loans := [];
    }

    /** `insert_cookbook`. */
    method InsertCookbook(book: NewCookbook) returns (id: Option<int>)
      requires Valid()
      modifies this
      ensures Valid()
      ensures Store.InsertCookbook(old(State()), book) == Store.Reply(State(), id)
    {
      Laws.InsertKeepsValid(State(), book);
      if book.title.None? || book.author.None? || cookbookSeq >= MaxRowId {
        return None;
      }
      cookbookSeq := cookbookSeq + 1;
      cookbooks := cookbooks + [Cookbook(cookbookSeq, book.title.value, book.author.value,
        book.yearPublished, book.aestheticRating, book.instagramWorthy, book.coverColor)];
      id := Some(cookbookSeq);
    }

    /** `add_recipe_tags`. */
    method AddRecipeTags(cookbookId: int, tag: string) returns (outcome: Store.Outcome)
      requires Valid()
      modifies this
      ensures Valid()
      ensures Store.AddTag(old(State()), cookbookId, tag) == Store.Reply(State(), outcome)
    {
      Laws.AddTagKeepsValid(State(), cookbookId, tag);
      if !Store.HasCookbook(cookbooks, cookbookId) {
        return Store.NotFound;
      }
      if Store.TagTaken(tags, tag) {
        return Store.Conflict;
      }
      if tagSeq >= MaxRowId {
        return Store.StorageError;
      }
      tagSeq := tagSeq + 1;
      tags := tags + [Tag(tagSeq, tag, cookbookId)];
      outcome := Store.Added(tagSeq);
    }

    /** `track_borrowed_cookbook`. */
    method TrackBorrowedCookbook(cookbookId: int, friendName: string, dateBorrowed: string)
      returns (outcome: Store.Outcome)
      requires Valid()
      modifies this
      ensures Valid()
      ensures Store.Borrow(old(State()), cookbookId, friendName, dateBorrowed) == Store.Reply(State(), outcome)
    {
      Laws.BorrowKeepsValid(State(), cookbookId, friendName, dateBorrowed);
      if !Store.HasCookbook(cookbooks, cookbookId) {
        return Store.NotFound;
      }
      if Store.HasOpenLoan(loans, cookbookId) {
        return Store.Conflict;
      }
      if loanSeq >= MaxRowId {
        return Store.StorageError;
      }
      loanSeq := loanSeq + 1;
      loans := loans + [Loan(loanSeq, friendName, dateBorrowed, None, cookbookId)];
      outcome := Store.Added(loanSeq);
    }

    /** The return step of the menu: an UPDATE on `borrow_table` by `borrow_id`. */
    method RecordReturn(borrowId: int, dateReturned: string)
      requires Valid()
      modifies this
      ensures Valid()
      ensures State() == Store.Return(old(State()), borrowId, dateReturned)
    {
      Laws.ReturnKeepsValid(State(), borrowId, dateReturned);
      loans := Store.SetReturned(loans, borrowId, dateReturned);
    }
  }
}
