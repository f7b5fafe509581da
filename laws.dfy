/** What the catalog promises across calls: each writing operation keeps the catalog
    invariant, ids are fresh even across a reset, a tag text is taken for every cookbook,
    a cookbook cannot be lent twice at once, and a returned cookbook can be lent again. */
module Laws {
  import opened Rows
  import opened Store
  import Queries

  /** Whatever rows an earlier session left behind, after `create_table` every table is empty,
      listing shows nothing, and the invariant holds. */
  lemma ResetEmptiesCatalog(db: Tables)
    requires CountersInRange(db)
    ensures Valid(Reset(db))
    ensures Queries.ListAll(Reset(db).cookbooks, false) == Queries.Listed([])
  {
  }

  lemma InsertKeepsValid(db: Tables, book: NewCookbook)
    requires Valid(db)
    ensures Valid(InsertCookbook(db, book).after)
  {
  }

  /** The id `insert_cookbook` returns exceeds the id of every stored cookbook. */
  lemma InsertedIdExceedsStored(db: Tables, book: NewCookbook)
    requires Valid(db)
    requires InsertCookbook(db, book).outcome.Some?
    ensures forall c :: c in db.cookbooks ==> c.id < InsertCookbook(db, book).outcome.value
  {
  }

  /** AUTOINCREMENT: an id handed out after a reset exceeds every id of the rows the reset
      deleted. SQLite keeps the counter at or above every id in the table, which is all this
      needs of the leftover rows. */
  lemma InsertAfterResetIsFresh(db: Tables, book: NewCookbook)
    requires CountersInRange(db)
    requires forall c :: c in db.cookbooks ==> c.id <= db.cookbookSeq
    requires InsertCookbook(Reset(db), book).outcome.Some?
    ensures forall c :: c in db.cookbooks ==> c.id < InsertCookbook(Reset(db), book).outcome.value
  {
  }

  /** Two successful inserts in a row return strictly increasing ids. */
  lemma InsertedIdsIncrease(db: Tables, first: NewCookbook, second: NewCookbook)
    requires InsertCookbook(db, first).outcome.Some?
    requires InsertCookbook(InsertCookbook(db, first).after, second).outcome.Some?
    ensures InsertCookbook(db, first).outcome.value
          < InsertCookbook(InsertCookbook(db, first).after, second).outcome.value
  {
  }

  /** An id `insert_cookbook` never handed out names no cookbook, so tagging or lending it is
      refused and changes nothing. */
  lemma UnissuedIdIsNotFound(db: Tables, id: int, tag: string, friendName: string, dateBorrowed: string)
    requires Valid(db)
    requires id <= 0 || id > db.cookbookSeq
    ensures AddTag(db, id, tag) == Reply(db, NotFound)
    ensures Borrow(db, id, friendName, dateBorrowed) == Reply(db, NotFound)
  {
  }

  lemma AddTagKeepsValid(db: Tables, cookbookId: int, tag: string)
    requires Valid(db)
    ensures Valid(AddTag(db, cookbookId, tag).after)
  {
  }

  /** The duplicate check looks at the tag text alone: once a text is stored for one cookbook,
      adding it again (to that cookbook or any other existing one) is a conflict that changes
      nothing, and the new row is the only one carrying that text. */
  lemma TagTextIsTakenForEveryCookbook(db: Tables, cookbookId: int, otherId: int, tag: string)
    requires Valid(db)
    requires AddTag(db, cookbookId, tag).outcome.Added?
    ensures var db1 := AddTag(db, cookbookId, tag).after;
      && AddTag(db1, otherId, tag)
         == Reply(db1, if HasCookbook(db1.cookbooks, otherId) then Conflict else NotFound)
      && forall i | 0 <= i < |db1.tags| :: db1.tags[i].tag == tag <==> i == |db.tags|
  {
  }

  lemma BorrowKeepsValid(db: Tables, cookbookId: int, friendName: string, dateBorrowed: string)
    requires Valid(db)
    ensures Valid(Borrow(db, cookbookId, friendName, dateBorrowed).after)
  {
  }

  /** Lending a cookbook that is out is a conflict that changes nothing, and exactly one open
      loan of it exists: the first one. */
  lemma SecondBorrowConflicts(db: Tables, cookbookId: int, friend1: string, date1: string,
                              friend2: string, date2: string)
    requires Valid(db)
    requires Borrow(db, cookbookId, friend1, date1).outcome.Added?
    ensures var db1 := Borrow(db, cookbookId, friend1, date1).after;
      && Borrow(db1, cookbookId, friend2, date2) == Reply(db1, Conflict)
      && forall i | 0 <= i < |db1.loans| ::
           (db1.loans[i].cookbookId == cookbookId && db1.loans[i].IsOpen()) <==> i == |db.loans|
  {
  }

  lemma ReturnKeepsValid(db: Tables, borrowId: int, dateReturned: string)
    requires Valid(db)
    ensures Valid(Return(db, borrowId, dateReturned))
  {
  }

  /** Borrow, return, borrow again: the return closes the loan with the given date, which
      leaves the cookbook with no open loan, so the next borrow of it succeeds. */
  lemma BorrowReturnBorrow(db: Tables, cookbookId: int, friend1: string, date1: string,
                           dateReturned: string, friend2: string, date2: string)
    requires Valid(db)
    requires Borrow(db, cookbookId, friend1, date1).outcome.Added?
    requires db.loanSeq + 1 < MaxRowId
    ensures var r1 := Borrow(db, cookbookId, friend1, date1);
      var db2 := Return(r1.after, r1.outcome.id, dateReturned);
      && (exists l :: l in db2.loans && l.borrowId == r1.outcome.id && l.cookbookId == cookbookId
                   && l.dateReturned == Some(dateReturned))
      && Borrow(db2, cookbookId, friend2, date2).outcome == Added(r1.outcome.id + 1)
  {
  }

  /** In any consistent catalog, returning a cookbook's open loan leaves it with no open loan,
      so the next borrow of it succeeds: the one-open-loan invariant means no other loan of
      that cookbook can still be out. */
  lemma ReturnFreesCookbook(db: Tables, l: Loan, dateReturned: string, friendName: string, dateBorrowed: string)
    requires Valid(db)
    requires l in db.loans && l.IsOpen()
    requires db.loanSeq < MaxRowId
    ensures Borrow(Return(db, l.borrowId, dateReturned), l.cookbookId, friendName, dateBorrowed).outcome.Added?
  {
  }
}
