# Cookbook catalog: a Dafny model

This project models the catalog core of the CookBookManager program (`cookbook_manager.py`).
The program keeps a personal cookbook collection in SQLite, in three tables:

- `cookbooks`: id, title, author, year published, aesthetic rating, "instagram worthy" flag, cover colour;
- `tags_table`: free-text tags, each attached to one cookbook;
- `borrow_table`: loans of a cookbook to a friend; a loan is open while its return date is NULL.

Every id column is `INTEGER PRIMARY KEY AUTOINCREMENT`. So each table has a counter, its
`sqlite_sequence` entry. The counter only grows, and deleting rows does not lower it.

Modules:

- `Rows` (rows.dfy) holds the row types. A nullable column is an `Option`.
- `TextOrder` (text_order.dfy) holds the order `ORDER BY cover_color` uses. NULL comes first. Texts
  compare code point by code point, as SQLite's BINARY collation does on UTF-8. It also holds
  lemmas that this order is total, transitive and antisymmetric.
- `Queries` (queries.dfy) holds the two read-only queries, `get_all_cookbooks` and
  `search_by_aesthetic_rating`. They are pure functions over the stored rows. A failed statement
  (the caught `sqlite3.Error`) is the `fault` parameter, and it yields an empty list. A listing
  that hits a NULL rating raises an uncaught TypeError and ends as `Raised`.
- `Store` (store.dfy) holds the three tables and their counters as one value, `Tables`. It states the
  catalog invariant `Valid`. Each writing operation is a function from the tables before to the
  tables after, plus what the operation reports:
  - `create_table` is `Reset`;
  - `insert_cookbook` is `InsertCookbook`;
  - `add_recipe_tags` is `AddTag`;
  - `track_borrowed_cookbook` is `Borrow`;
  - the return-date `UPDATE` in `main` is `Return`.
- `Laws` (laws.dfy) proves that every writing operation keeps `Valid`. It also proves properties that
  span several calls: ids stay fresh across a reset, a tag text blocks every cookbook, a second
  borrow is refused, and borrowing again after a return succeeds.
- `Manager` (shelf.dfy) holds the class `Shelf`. Its fields are the three tables and the three
  counters. Its methods perform cookbook_manager.py's check-then-write in place. Each method is proved to
  leave the fields exactly as the matching `Store` function says.

Points where the code does something its names and messages do not suggest:

- **Duplicate tags.** The duplicate-tag check looks up the tag text alone
  (`WHERE tag = ?`, cookbook_manager.py:140). It does not look up the (tag, cookbook) pair.
  Once a text is stored for one cookbook, no other cookbook can get it either. The message at
  cookbook_manager.py:148 mentions "that cookbook", but the code does not check the cookbook.
- **Title and author.** They only need to be non-NULL (`NOT NULL`). An empty string is stored.
- **Listing order.** `get_all_cookbooks` has no `ORDER BY`, so no order is promised. The result
  contains exactly the stored rows.
- **Listing a NULL rating.** `get_all_cookbooks` prints each rating as a glyph repeated
  `aesthetic_rating` times (cookbook_manager.py:97). A NULL rating makes that raise a TypeError.
  The handler at line 102 catches only `sqlite3.Error`, so the exception escapes and no list is
  returned. The model reports this as `Raised`. A very large rating makes the same line raise
  a MemoryError; that case is not modelled (see "Left out").
- **Rating search.** The parameter is called `minimum_rating` (cookbook_manager.py:106), but the
  search is an exact match on the rating, not a minimum. A row whose rating is NULL never matches.
- **Return.** Returning an unknown loan id changes nothing, yet the program still reports
  success. Returning a closed loan overwrites its date.
- **Reset scope.** Reset on start-up clears all three tables, loans included, whatever rows an
  earlier session left there.
- **Id exhaustion.** When a table's counter has reached 2^63 - 1, an `AUTOINCREMENT` insert fails
  with SQLITE_FULL. The program catches that as a `sqlite3.Error`. The model reports it as
  `None` (insert) or `StorageError` (tag, borrow), and nothing changes.

## Model

| member | source | states |
|---|---|---|
| `TextOrder.TextLeTotal` | cookbook_manager.py:110 | any two cover colours are comparable under the text order that ORDER BY uses |
| `TextOrder.TextLeTransitive` | cookbook_manager.py:110 | that text order is transitive |
| `TextOrder.TextLeAntisymmetric` | cookbook_manager.py:110 | two texts that each sort no later than the other are equal |
| `TextOrder.ColorLeTotal` | cookbook_manager.py:110 | a nullable cover colour (NULL first) is totally ordered |
| `TextOrder.ColorLeTransitive` | cookbook_manager.py:110 | the nullable colour order is transitive |
| `Queries.Matching` | cookbook_manager.py:110 | `WHERE aesthetic_rating == ?` keeps a row iff its rating equals the argument (NULL never equals), and keeps each matching row exactly as often as it is stored |
| `Queries.InsertByColor` | cookbook_manager.py:110 | adding a row to a colour-sorted list keeps it sorted and adds exactly that row |
| `Queries.SortByColor` | cookbook_manager.py:110 | the result is sorted ascending on cover_color and is a permutation of the input |
| `Queries.SearchByRating` | cookbook_manager.py:106-124 | without a fault, the result holds exactly the stored rows whose rating equals the argument, as a multiset, sorted on cover_color; with a fault, it is empty |
| `Queries.ListAll` | cookbook_manager.py:86-104 | with a fault, the result is an empty list; without one, a stored NULL rating makes the uncaught TypeError escape, and with no NULL rating the list holds every stored row and only those, as a multiset (huge ratings: see Left out) |
| `Queries.SearchForAbsentRatingIsEmpty` | cookbook_manager.py:110 | a rating that no stored row has yields an empty search result |
| `Store.Empty` | cookbook_manager.py:19-48 | newly created tables are empty and satisfy the catalog invariant |
| `Store.Reset` | cookbook_manager.py:51-62 | after the unconditional DELETEs all three tables are empty, and every AUTOINCREMENT counter is kept |
| `Store.InsertCookbook` | cookbook_manager.py:72-84 | a NULL title or author, or an exhausted counter, gives None and changes nothing; otherwise exactly one row with the given fields is appended, under an id above the counter, which is returned; tags and loans are untouched |
| `Store.AddTag` | cookbook_manager.py:126-152 | NotFound iff no cookbook has the id; Conflict iff it exists and any tag row has the same text; on every refusal nothing changes; on success exactly `(tag, cookbook_id)` is appended under a fresh id, and nothing else changes |
| `Store.Borrow` | cookbook_manager.py:154-181 | NotFound iff no cookbook has the id; Conflict iff it exists and already has an open loan; on every refusal nothing changes; on success exactly one open loan is appended under a fresh id |
| `Store.SetReturned` | cookbook_manager.py:261 | the UPDATE sets the return date on the rows whose borrow_id matches, closed ones included, and leaves every other field and row as it was |
| `Store.Return` | cookbook_manager.py:259-262 | only the loans change, as the UPDATE says; an unknown borrow id leaves all tables unchanged |
| `Laws.ResetEmptiesCatalog` | cookbook_manager.py:51-62 | whatever rows a file holds, after a reset the invariant holds and listing the cookbooks yields an empty list |
| `Laws.InsertKeepsValid` | cookbook_manager.py:72-84 | an insert keeps the catalog invariant |
| `Laws.InsertedIdExceedsStored` | cookbook_manager.py:21 | the id an insert returns exceeds the id of every stored cookbook |
| `Laws.InsertAfterResetIsFresh` | cookbook_manager.py:21 | an id handed out after a reset exceeds the ids of all rows the reset deleted, given only that the counter is at or above those ids, as SQLite keeps it |
| `Laws.InsertedIdsIncrease` | cookbook_manager.py:21 | two successful inserts in a row return strictly increasing ids |
| `Laws.UnissuedIdIsNotFound` | cookbook_manager.py:133-137 | tagging or lending an id never handed out is NotFound and changes nothing |
| `Laws.AddTagKeepsValid` | cookbook_manager.py:139-146 | adding a tag keeps the invariant, including pairwise-distinct tag texts |
| `Laws.TagTextIsTakenForEveryCookbook` | cookbook_manager.py:140-148 | once a tag text is stored, adding it again to any existing cookbook is a no-op Conflict, and the new row is the only one with that text |
| `Laws.BorrowKeepsValid` | cookbook_manager.py:168-175 | a borrow keeps the invariant, including at most one open loan per cookbook |
| `Laws.SecondBorrowConflicts` | cookbook_manager.py:169-177 | borrowing a cookbook that is out is a no-op Conflict, and exactly one open loan of it exists |
| `Laws.ReturnKeepsValid` | cookbook_manager.py:259-262 | a return keeps the invariant |
| `Laws.BorrowReturnBorrow` | cookbook_manager.py:259-262 | after a borrow, returning that loan records the date, and a new borrow of the cookbook then succeeds with the next id |
| `Laws.ReturnFreesCookbook` | cookbook_manager.py:259-262 | in any consistent catalog, returning any open loan of a cookbook lets the next borrow of that cookbook succeed, because no other loan of it can be open (the check at cookbook_manager.py:169) |
| `Manager.Shelf.constructor` | cookbook_manager.py:19-48 | a new database starts with empty tables that satisfy the invariant |
| `Manager.Shelf.Reopen` | cookbook_manager.py:8 | opening an existing database file yields its tables and counters as they are, whatever rows they hold |
| `Manager.Shelf.CreateTable` | cookbook_manager.py:15-62 | empties the three tables in place whatever they held, keeps the counters, and establishes the invariant |
| `Manager.Shelf.InsertCookbook` | cookbook_manager.py:72-84 | changes the tables in place exactly as `Store.InsertCookbook` and returns its id or None |
| `Manager.Shelf.AddRecipeTags` | cookbook_manager.py:126-152 | checks the cookbook first, then the tag text, then writes, exactly as `Store.AddTag` |
| `Manager.Shelf.TrackBorrowedCookbook` | cookbook_manager.py:154-181 | checks the cookbook first, then open loans, then writes, exactly as `Store.Borrow` |
| `Manager.Shelf.RecordReturn` | cookbook_manager.py:252-262 | updates the loans in place exactly as `Store.Return`, keeping the invariant |

## Left out

- Connection handling, `commit`, `close` and error printing (cookbook_manager.py:4-13, 79, 145, 174, 274) are calls into the SQLite library. The only write failure modelled is counter exhaustion. Any other failing write would be rolled back by SQLite, leaving the tables unchanged; it is not modelled separately.
- Durability is not modelled. The return `UPDATE` in `main` is never committed by itself. It persists only if a later operation commits. The model keeps one in-session state, where the update is visible at once.
- All console output and formatting are presentation: the glyph rating, the Yes/No label, and the borrow-table dump before a borrow or return. The one effect of formatting that is modelled is the TypeError a NULL rating raises in `get_all_cookbooks`. The rows printed before that exception are not modelled.
- The menu loop, `int(input(...))` parsing and the seeding of sample cookbooks in `main` are input and output (cookbook_manager.py:183-250, 264-271). Callers pass the values directly.
- The search binds its argument as `(minimum_rating)`, a bare string rather than a tuple (cookbook_manager.py:110). Input longer than one character therefore raises an error. The model takes the rating as an integer.
- On a database file without the tables, `create_table` fails. Its SELECTs (cookbook_manager.py:52-54) run before the CREATE TABLEs (lines 65-67). The model assumes the tables exist and captures only the reset.
- SQLite's dynamic typing (type affinity) is not modelled. Each column holds values of its declared type.
- `Queries.ListAll`: the result is promised only as a permutation of the stored rows, because the query has no `ORDER BY`. The model returns them in insertion order.
- `Queries.ListAll`: does not capture the MemoryError that printing a very large stored rating raises (the glyph string repeated `aesthetic_rating` times, cookbook_manager.py:97). It always happens from 2^62 on, and for smaller huge ratings depending on available memory. Like the NULL TypeError it escapes the handler, but the model lists the rows, because memory limits are outside the model.
- `Store.InsertCookbook`: does not capture that binding a year or rating outside SQLite's 64-bit range [-2^63, 2^63 - 1] raises an uncaught OverflowError (cookbook_manager.py:78, not a `sqlite3.Error`). The model stores the row and returns its id. Integer parameters are unbounded in the model.
- `Store.AddTag`: does not capture that a cookbook id outside SQLite's 64-bit range raises an uncaught OverflowError at the existence check (cookbook_manager.py:133). The model answers NotFound and changes nothing.
- `Store.Borrow`: does not capture that a cookbook id outside SQLite's 64-bit range raises an uncaught OverflowError at the existence check (cookbook_manager.py:163). The model answers NotFound and changes nothing.
- `Store.SetReturned`: does not capture that a borrow id outside SQLite's 64-bit range makes the UPDATE raise an OverflowError, which nothing handles (cookbook_manager.py:261). The model leaves every row as it was.
- `Store.Return`: does not capture the same OverflowError for a borrow id outside the 64-bit range (cookbook_manager.py:261). The program ends with a traceback, while the model leaves all tables unchanged.
- `Laws.UnissuedIdIsNotFound`: holds for ids inside SQLite's 64-bit range. An id of 2^63 or more raises an uncaught OverflowError in the source (cookbook_manager.py:133, 163) instead of reporting NotFound, which the model does not capture.
- `Queries.SearchByRating`: the order among rows with equal cover colours is not promised, because SQLite leaves it unspecified.
