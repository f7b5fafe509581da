/** The order SQLite's `ORDER BY cover_color` uses: NULL sorts before every text, and texts
    compare under the BINARY collation, i.e. code point by code point, a proper prefix first. */
module TextOrder {
  import opened Rows

  /** Lexicographic "a sorts no later than b" on code points. */
  predicate TextLe(a: string, b: string)
  {
    |a| == 0 || (|b| > 0 && (a[0] < b[0] || (a[0] == b[0] && TextLe(a[1..], b[1..]))))
  }

  /** Ascending order on a nullable text column: NULL first. */
  predicate ColorLe(a: Option<string>, b: Option<string>)
  {
    match (a, b)
    case (None, _) => true
    case (Some(_), None) => false
    case (Some(x), Some(y)) => TextLe(x, y)
  }

  lemma {:induction false} TextLeTotal(a: string, b: string)
    ensures TextLe(a, b) || TextLe(b, a)
  {
    if |a| > 0 && |b| > 0 && a[0] == b[0] {
      TextLeTotal(a[1..], b[1..]);
    }
  }

  lemma {:induction false} TextLeTransitive(a: string, b: string, c: string)
    requires TextLe(a, b) && TextLe(b, c)
    ensures TextLe(a, c)
  {
    if |a| > 0 && a[0] == b[0] && b[0] == c[0] {
      TextLeTransitive(a[1..], b[1..], c[1..]);
    }
  }

  /** Two texts that sort no later than each other are the same text. */
  lemma {:induction false} TextLeAntisymmetric(a: string, b: string)
    requires TextLe(a, b) && TextLe(b, a)
    ensures a == b
  {
    if |a| > 0 {
      TextLeAntisymmetric(a[1..], b[1..]);
      assert a == [a[0]] + a[1..] && b == [b[0]] + b[1..];
    }
  }

  lemma ColorLeTotal(a: Option<string>, b: Option<string>)
    ensures ColorLe(a, b) || ColorLe(b, a)
  {
    if a.Some? && b.Some? {
      TextLeTotal(a.value, b.value);
    }
  }

  lemma ColorLeTransitive(a: Option<string>, b: Option<string>, c: Option<string>)
    requires ColorLe(a, b) && ColorLe(b, c)
    ensures ColorLe(a, c)
  {
    if a.Some? {
      TextLeTransitive(a.value, b.value, c.value);
    }
  }
}
