/** Row types of the three catalog tables (cookbooks, tags_table, borrow_table).
    A nullable SQL column is an `Option`; a NOT NULL text column is a plain string. */
module Rows {

  datatype Option<+T> = None | Some(value: T)

  /** Largest rowid SQLite can hand out (2^63 - 1). An AUTOINCREMENT table whose
      counter has reached it refuses further inserts with SQLITE_FULL. */
  const MaxRowId: nat := 0x7FFF_FFFF_FFFF_FFFF

  /** A row of `cookbooks`. */
  datatype Cookbook = Cookbook(
    id: int,
    title: string,
    author: string,
    yearPublished: Option<int>,
    aestheticRating: Option<int>,
    instagramWorthy: Option<bool>,
    coverColor: Option<string>)

  /** The six values a caller binds to the INSERT into `cookbooks`; any of them may be NULL,
      including the two NOT NULL columns, which the table then refuses. */
  datatype NewCookbook = NewCookbook(
    title: Option<string>,
    author: Option<string>,
    yearPublished: Option<int>,
    aestheticRating: Option<int>,
    instagramWorthy: Option<bool>,
    coverColor: Option<string>)

  /** A row of `tags_table`. */
  datatype Tag = Tag(tagId: int, tag: string, cookbookId: int)

  /** A row of `borrow_table`; the loan is open while `dateReturned` is NULL. */
  datatype Loan = Loan(
    borrowId: int,
    friendName: string,
    dateBorrowed: string,
    dateReturned: Option<string>,
    cookbookId: int)
  {
    predicate IsOpen() { dateReturned.None? }
  }
}
