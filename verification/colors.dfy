/** Grouping of book titles by cover color. */
module Colors {
  import opened Catalog

  /** The colors that occur in `books`. */
  function ColorsOf(books: seq<Book>): set<string>
  {
    set i | 0 <= i < |books| :: books[i].color
  }

  /** The titles of the books of color `color`, in the order the books occur. */
  function TitlesOfColor(books: seq<Book>, color: string): seq<string>
  {
    if |books| == 0 then []
    else (if books[0].color == color then [books[0].title] else []) + TitlesOfColor(books[1..], color)
  }

  /** `colors` groups `books` by color: one key per occurring color, holding
      that color's titles in input order. */
  predicate IsColorGrouping(books: seq<Book>, colors: map<string, seq<string>>)
  {
    && colors.Keys == ColorsOf(books)
    && forall c :: c in colors ==> colors[c] == TitlesOfColor(books, c)
  }

  /** Builds the grouping in one pass over the books, creating a color's list
      at its first book and appending to it afterwards. */
  method BooksByColor(books: seq<Book>) returns (colors: map<string, seq<string>>)
    ensures colors.Keys == ColorsOf(books)
    ensures forall c :: c in colors ==> colors[c] == TitlesOfColor(books, c)
  {
    colors := map[];
    for i := 0 to |books|
      invariant IsColorGrouping(books[..i], colors)
    {
      var book := books[i];
      assert books[..i + 1] == books[..i] + [book];
      GroupingSnoc(books[..i], book);
      if book.color !in colors {
        TitlesOfColorAbsent(books[..i], book.color);
        colors := colors[book.color := [book.title]];
      } else {
        colors := colors[book.color := colors[book.color] + [book.title]];
      }
    }
    assert books[..|books|] == books;
  }

  /** Filtering a concatenation is concatenating the filtered parts. */
  lemma {:induction false} TitlesOfColorAppend(left: seq<Book>, right: seq<Book>)
    ensures forall c :: TitlesOfColor(left + right, c) == TitlesOfColor(left, c) + TitlesOfColor(right, c)
  {
    if |left| > 0 {
      TitlesOfColorAppend(left[1..], right);
      assert (left + right)[1..] == left[1..] + right;
    } else {
      assert left + right == right;
    }
  }

  /** How one more book changes the colors and the lists of each color. */
  lemma GroupingSnoc(prefix: seq<Book>, book: Book)
    ensures ColorsOf(prefix + [book]) == ColorsOf(prefix) + {book.color}
    ensures forall c ::
      TitlesOfColor(prefix + [book], c) == TitlesOfColor(prefix, c) + (if book.color == c then [book.title] else [])
  {
    TitlesOfColorAppend(prefix, [book]);
    assert forall c :: TitlesOfColor([book], c) == (if book.color == c then [book.title] else []) by {
      assert [book][1..] == [];
    }
    var grown := prefix + [book];
    assert grown[|prefix|] == book;
    forall c | c in ColorsOf(prefix) ensures c in ColorsOf(grown) {
      var i :| 0 <= i < |prefix| && prefix[i].color == c;
      assert grown[i] == prefix[i];
    }
  }

  /** A color that no book has collects no titles. */
  lemma {:induction false} TitlesOfColorAbsent(books: seq<Book>, color: string)
    requires color !in ColorsOf(books)
    ensures TitlesOfColor(books, color) == []
  {
    if |books| > 0 {
      assert ColorsOf(books[1..]) <= ColorsOf(books) by {
        forall c | c in ColorsOf(books[1..]) ensures c in ColorsOf(books) {
          var i :| 0 <= i < |books[1..]| && books[1..][i].color == c;
          assert books[i + 1].color == c;
        }
      }
      assert books[0].color in ColorsOf(books);
      TitlesOfColorAbsent(books[1..], color);
    }
  }

  /** Every book's title is listed under its own color. */
  lemma BookListedUnderColor(books: seq<Book>, colors: map<string, seq<string>>, i: nat)
    requires IsColorGrouping(books, colors)
    requires i < |books|
    ensures books[i].color in colors && books[i].title in colors[books[i].color]
  {
    assert books == books[..i] + [books[i]] + books[i + 1..];
    TitlesOfColorAppend(books[..i] + [books[i]], books[i + 1..]);
    TitlesOfColorAppend(books[..i], [books[i]]);
  }

  /** The total number of entries across all the lists of a map. */
  ghost function TotalSize<K, V>(m: map<K, seq<V>>): nat
    decreases |m.Keys|
  {
    if m.Keys == {} then 0
    else
      var k :| k in m.Keys;
      assert (m - {k}).Keys == m.Keys - {k};
      |m[k]| + TotalSize(m - {k})
  }

  /** `TotalSize` may take out any key first. */
  lemma {:induction false} TotalSizeRemove<K, V>(m: map<K, seq<V>>, k: K)
    requires k in m
    ensures TotalSize(m) == |m[k]| + TotalSize(m - {k})
    decreases |m.Keys|
  {
    var k' :| k' in m.Keys && TotalSize(m) == |m[k']| + TotalSize(m - {k'});
    if k' != k {
      assert (m - {k'}).Keys == m.Keys - {k'};
      assert (m - {k}).Keys == m.Keys - {k};
      TotalSizeRemove(m - {k'}, k);
      TotalSizeRemove(m - {k}, k');
      assert m - {k'} - {k} == m - {k} - {k'};
    }
  }

  /** Replacing (or adding) one key's list changes the total by the difference. */
  lemma TotalSizeUpdate<K, V>(m: map<K, seq<V>>, k: K, v: seq<V>)
    ensures TotalSize(m[k := v]) == TotalSize(m) - (if k in m then |m[k]| else 0) + |v|
  {
    TotalSizeRemove(m[k := v], k);
    assert m[k := v] - {k} == m - {k};
    if k in m {
      TotalSizeRemove(m, k);
    } else {
      assert m - {k} == m;
    }
  }

  /** The grouping after one more book is the grouping before it with that
      book's color list extended (or created). */
  lemma GroupingStep(prefix: seq<Book>, book: Book, before: map<string, seq<string>>, after: map<string, seq<string>>)
    requires IsColorGrouping(prefix, before)
    requires IsColorGrouping(prefix + [book], after)
    ensures book.color in after && after == before[book.color := after[book.color]]
    ensures book.color in after
      && after[book.color] == (if book.color in before then before[book.color] else []) + [book.title]
  {
    var color := book.color;
    GroupingSnoc(prefix, book);
    assert color in after;
    var updated := before[color := after[color]];
    assert after.Keys == updated.Keys;
    forall c | c in after
      ensures after[c] == updated[c]
    {
      if c != color {
        assert after[c] == TitlesOfColor(prefix + [book], c);
        assert after[c] == TitlesOfColor(prefix, c);
      }
    }
    if color !in before {
      TitlesOfColorAbsent(prefix, color);
      assert after[color] == [book.title];
    } else {
      assert after[color] == before[color] + [book.title];
    }
  }

  /** The grouping is a partition of the books: its lists hold exactly one
      entry per book. */
  lemma {:induction false} ColorGroupingSize(books: seq<Book>, colors: map<string, seq<string>>)
    requires IsColorGrouping(books, colors)
    ensures TotalSize(colors) == |books|
    decreases |books|
  {
    if |books| == 0 {
      assert colors.Keys == {};
    } else {
      var n := |books| - 1;
      var prefix := books[..n];
      var book := books[n];
      assert books == prefix + [book];
      var before := map c | c in ColorsOf(prefix) :: TitlesOfColor(prefix, c);
      ColorGroupingSize(prefix, before);
      GroupingStep(prefix, book, before, colors);
      TotalSizeUpdate(before, book.color, colors[book.color]);
    }
  }
}
