/** The two read-only queries over `cookbooks`: `get_all_cookbooks` and
    `search_by_aesthetic_rating`. Neither changes a table; a failing statement
    (`fault`, standing for a caught sqlite3.Error) yields an empty list. */
module Queries {
  import opened Rows
  import opened TextOrder

  /** Rows sorted ascending on `cover_color`; rows with equal colours may come in any order. */
  ghost predicate SortedByColor(s: seq<Cookbook>)
  {
    forall i, j | 0 <= i < j < |s| :: ColorLe(s[i].coverColor, s[j].coverColor)
  }

  /** `WHERE aesthetic_rating == rating`: a NULL rating equals nothing. */
  function Matching(rows: seq<Cookbook>, rating: int): (r: seq<Cookbook>)
    ensures forall c :: c in r <==> c in rows && c.aestheticRating == Some(rating)
    ensures forall c :: multiset(r)[c] == if c.aestheticRating == Some(rating) then multiset(rows)[c] else 0
    ensures multiset(r) <= multiset(rows)
  {
    if rows == [] then []
    else
      var rest := Matching(rows[1..], rating);
      assert rows == [rows[0]] + rows[1..];
      if rows[0].aestheticRating == Some(rating) then [rows[0]] + rest else rest
  }

  /** Places `c` into a colour-sorted sequence. */
  function InsertByColor(c: Cookbook, s: seq<Cookbook>): (r: seq<Cookbook>)
    requires SortedByColor(s)
    ensures SortedByColor(r)
    ensures multiset(r) == multiset(s) + multiset{c}
  {
    if s == [] then [c]
    else if ColorLe(c.coverColor, s[0].coverColor) then
      InsertFirstKeepsSorted(c, s);
      [c] + s
    else
      var rest := InsertByColor(c, s[1..]);
      assert s == [s[0]] + s[1..];
      ColorLeTotal(c.coverColor, s[0].coverColor);
      HeadBelowRest(s[0], c, s[1..], rest);
      [s[0]] + rest
  }

  lemma InsertFirstKeepsSorted(c: Cookbook, s: seq<Cookbook>)
    requires s != [] && SortedByColor(s) && ColorLe(c.coverColor, s[0].coverColor)
    ensures SortedByColor([c] + s)
  {
    var r := [c] + s;
    forall i, j | 0 <= i < j < |r| ensures ColorLe(r[i].coverColor, r[j].coverColor) {
      if i == 0 && j > 1 {
        ColorLeTransitive(c.coverColor, s[0].coverColor, s[j - 1].coverColor);
      }
    }
  }

  /** `h` may go in front of `rest` when it sorts no later than every element of `rest`,
      which holds when rest is `c` added to a tail that `h` already precedes. */
  lemma HeadBelowRest(h: Cookbook, c: Cookbook, tail: seq<Cookbook>, rest: seq<Cookbook>)
    requires SortedByColor([h] + tail) && SortedByColor(rest)
    requires ColorLe(h.coverColor, c.coverColor)
    requires multiset(rest) == multiset(tail) + multiset{c}
    ensures SortedByColor([h] + rest)
  {
    var r := [h] + rest;
    forall i, j | 0 <= i < j < |r| ensures ColorLe(r[i].coverColor, r[j].coverColor) {
      if i == 0 {
        var y := rest[j - 1];
        assert r[j] == y;
        assert y in multiset(rest);
        if y != c {
          assert y in multiset(tail);
          assert y in tail;
          var k :| 0 <= k < |tail| && tail[k] == y;
          assert ([h] + tail)[0] == h && ([h] + tail)[k + 1] == y;
        }
      } else {
        assert r[i] == rest[i - 1] && r[j] == rest[j - 1];
      }
    }
  }

  /** Insertion sort on `cover_color`. */
  function SortByColor(s: seq<Cookbook>): (r: seq<Cookbook>)
    ensures SortedByColor(r)
    ensures multiset(r) == multiset(s)
  {
    if s == [] then []
    else
      assert s == [s[0]] + s[1..];
      InsertByColor(s[0], SortByColor(s[1..]))
  }

  /** `search_by_aesthetic_rating`: the rows whose rating equals `rating` (an equality, not a
      minimum), each as often as stored, ascending on `cover_color`. */
  function SearchByRating(rows: seq<Cookbook>, rating: int, fault: bool): (r: seq<Cookbook>)
    ensures fault ==> r == []
    ensures !fault ==> SortedByColor(r)
    ensures !fault ==> multiset(r) == multiset(Matching(rows, rating))
    ensures forall c :: c in r ==> c in rows && c.aestheticRating == Some(rating)
    ensures !fault ==> forall c :: c in rows && c.aestheticRating == Some(rating) ==> c in r
  {
    if fault then []
    else
      var r := SortByColor(Matching(rows, rating));
      assert forall c :: c in r <==> c in multiset(r);
      r
  }

  /** How `get_all_cookbooks` ends: it returns a list, or an exception that its handler does
      not catch escapes to the caller. */
  datatype Listing = Listed(books: seq<Cookbook>) | Raised

  /** `get_all_cookbooks`: every stored row and only those, each as often as stored; the
      query has no ORDER BY, so no order is promised. Printing a row computes the rating glyphs
      as a string repeated `aesthetic_rating` times, which raises a TypeError (not a
      sqlite3.Error, so uncaught) when a stored rating is NULL. The MemoryError that a huge
      rating raises on the same line is not modelled. */
  function ListAll(rows: seq<Cookbook>, fault: bool): (r: Listing)
    ensures fault ==> r == Listed([])
    ensures !fault ==> (r.Raised? <==> exists c :: c in rows && c.aestheticRating.None?)
    ensures r.Listed? && !fault ==> multiset(r.books) == multiset(rows)
  {
    if fault then Listed([])
    else if exists c :: c in rows && c.aestheticRating.None? then Raised
    else Listed(rows)
  }

  /** A rating no stored row has yields an empty result. */
  lemma SearchForAbsentRatingIsEmpty(rows: seq<Cookbook>, rating: int, fault: bool)
    requires forall c :: c in rows ==> c.aestheticRating != Some(rating)
    ensures SearchByRating(rows, rating, fault) == []
  {
  }
}
