/** Titles credited to an author, and the joined bibliographies of the
    authors credited on one book. */
module Titles {
  import opened Outcomes
  import opened Seqs
  import opened Catalog
  import opened Lookup

  /** How many entries of a credit list match `name`, ignoring case. */
  function CreditCount(credits: seq<Credit>, name: string): nat
  {
    if |credits| == 0 then 0
    else (if SameName(credits[0].name, name) then 1 else 0) + CreditCount(credits[1..], name)
  }

  /** `book` credits an author whose name matches `name`, ignoring case. */
  predicate Credits(book: Book, name: string)
  {
    exists j :: 0 <= j < |book.authors| && SameName(book.authors[j].name, name)
  }

  /** The titles credited to `name`: book by book, in input order, each book's
      title once per matching entry of its credit list. */
  function CreditedTitles(name: string, books: seq<Book>): seq<string>
  {
    if |books| == 0 then []
    else Repeat(books[0].title, CreditCount(books[0].authors, name)) + CreditedTitles(name, books[1..])
  }

  /** The number of times `name` is credited on the books titled `title`. */
  function CreditsForTitle(name: string, books: seq<Book>, title: string): nat
  {
    if |books| == 0 then 0
    else
      var own := if books[0].title == title then CreditCount(books[0].authors, name) else 0;
      own + CreditsForTitle(name, books[1..], title)
  }

  /** Scans every credit of every book and pushes the book's title for each
      credit that matches `authorName` ignoring case. The `authors` list is
      accepted but not consulted. */
  method TitlesByAuthorName(authorName: string, authors: seq<Author>, books: seq<Book>)
    returns (titles: seq<string>)
    ensures titles == CreditedTitles(authorName, books)
  {
    titles := [];
    for i := 0 to |books|
      invariant titles == CreditedTitles(authorName, books[..i])
    {
      var copies := CreditedCopies(authorName, books[i]);
      CreditedTitlesAppend(authorName, books[..i], [books[i]]);
      assert books[..i + 1] == books[..i] + [books[i]];
      titles := titles + copies;
    }
    assert books[..|books|] == books;
  }

  /** The scan of one book's credits: its title once per credit matching
      `authorName` ignoring case. */
  method CreditedCopies(authorName: string, book: Book) returns (titles: seq<string>)
    ensures titles == Repeat(book.title, CreditCount(book.authors, authorName))
  {
    titles := [];
    for j := 0 to |book.authors|
      invariant titles == Repeat(book.title, CreditCount(book.authors[..j], authorName))
    {
      CreditCountAppend(book.authors[..j], [book.authors[j]], authorName);
      assert book.authors[..j + 1] == book.authors[..j] + [book.authors[j]];
      if SameName(book.authors[j].name, authorName) {
        titles := titles + [book.title];
      }
    }
    assert book.authors[..|book.authors|] == book.authors;
  }

  /** Counting matches over a concatenation adds the counts of the parts. */
  lemma {:induction false} CreditCountAppend(left: seq<Credit>, right: seq<Credit>, name: string)
    ensures CreditCount(left + right, name) == CreditCount(left, name) + CreditCount(right, name)
  {
    if |left| > 0 {
      assert (left + right)[1..] == left[1..] + right;
      CreditCountAppend(left[1..], right, name);
    } else {
      assert left + right == right;
    }
  }

  /** A credit list counts a name at least once exactly when it credits it. */
  lemma {:induction false} CreditCountPositive(book: Book, name: string)
    ensures CreditCount(book.authors, name) > 0 <==> Credits(book, name)
  {
    CreditCountPositiveFrom(book.authors, name);
  }

  /** A credit list counts a name at least once exactly when some entry matches it. */
  lemma {:induction false} CreditCountPositiveFrom(credits: seq<Credit>, name: string)
    ensures CreditCount(credits, name) > 0 <==> exists j :: 0 <= j < |credits| && SameName(credits[j].name, name)
  {
    if |credits| > 0 {
      CreditCountPositiveFrom(credits[1..], name);
      if !SameName(credits[0].name, name) && exists j :: 0 <= j < |credits| && SameName(credits[j].name, name) {
        var j :| 0 <= j < |credits| && SameName(credits[j].name, name);
        assert credits[1..][j - 1] == credits[j];
      }
    }
  }

  /** Order is kept: the titles credited over two lists placed one after the
      other are the two results placed one after the other. */
  lemma {:induction false} CreditedTitlesAppend(name: string, left: seq<Book>, right: seq<Book>)
    ensures CreditedTitles(name, left + right) == CreditedTitles(name, left) + CreditedTitles(name, right)
  {
    if |left| > 0 {
      assert (left + right)[1..] == left[1..] + right;
      CreditedTitlesAppend(name, left[1..], right);
    } else {
      assert left + right == right;
    }
  }

  /** Multiplicity is kept: a title occurs once per matching credit on each
      book that carries it. */
  lemma {:induction false} CreditedTitlesMultiplicity(name: string, books: seq<Book>, title: string)
    ensures multiset(CreditedTitles(name, books))[title] == CreditsForTitle(name, books, title)
  {
    if |books| > 0 {
      CreditedTitlesMultiplicity(name, books[1..], title);
      RepeatMultiset(books[0].title, CreditCount(books[0].authors, name));
    }
  }

  /** A title is among the credited titles exactly when some book with that
      title credits the name. */
  lemma {:induction false} CreditedTitlesMembership(name: string, books: seq<Book>, title: string)
    ensures title in CreditedTitles(name, books) <==>
      exists i :: 0 <= i < |books| && books[i].title == title && Credits(books[i], name)
  {
    if |books| > 0 {
      CreditedTitlesMembership(name, books[1..], title);
      CreditCountPositive(books[0], name);
      RepeatMultiset(books[0].title, CreditCount(books[0].authors, name));
      assert multiset(CreditedTitles(name, books))
        == multiset(Repeat(books[0].title, CreditCount(books[0].authors, name))) + multiset(CreditedTitles(name, books[1..]));
      if exists i :: 0 <= i < |books| && books[i].title == title && Credits(books[i], name) {
        var i :| 0 <= i < |books| && books[i].title == title && Credits(books[i], name);
        if i > 0 {
          assert books[1..][i - 1] == books[i];
        }
      }
    }
  }

  /** Nothing is found exactly when no book credits the name. */
  lemma CreditedTitlesEmpty(name: string, books: seq<Book>)
    ensures CreditedTitles(name, books) == [] <==> forall i :: 0 <= i < |books| ==> !Credits(books[i], name)
  {
    if CreditedTitles(name, books) != [] {
      CreditedTitlesMembership(name, books, CreditedTitles(name, books)[0]);
    } else {
      forall i | 0 <= i < |books| ensures !Credits(books[i], name) {
        CreditedTitlesMembership(name, books, books[i].title);
      }
    }
  }

  /** Names that agree after upper-casing are credited with the same titles. */
  lemma {:induction false} CreditedTitlesCaseInsensitive(name1: string, name2: string, books: seq<Book>)
    requires SameName(name1, name2)
    ensures CreditedTitles(name1, books) == CreditedTitles(name2, books)
  {
    if |books| > 0 {
      CreditCountCaseInsensitive(name1, name2, books[0].authors);
      CreditedTitlesCaseInsensitive(name1, name2, books[1..]);
    }
  }

  /** Names that agree after upper-casing are counted equally often in a credit list. */
  lemma {:induction false} CreditCountCaseInsensitive(name1: string, name2: string, credits: seq<Credit>)
    requires SameName(name1, name2)
    ensures CreditCount(credits, name1) == CreditCount(credits, name2)
  {
    if |credits| > 0 {
      CreditCountCaseInsensitive(name1, name2, credits[1..]);
    }
  }

  /** The bibliographies of the credited authors, one after the other in
      credit order, without removing duplicates. */
  function RelatedTitles(credits: seq<Credit>, books: seq<Book>): seq<string>
  {
    if |credits| == 0 then []
    else CreditedTitles(credits[0].name, books) + RelatedTitles(credits[1..], books)
  }

  /** Resolves the book with id `bookId`, then appends, for each of its credited
      authors in order, every title credited to that author. */
  method RelatedBooks(bookId: int, authors: seq<Author>, books: seq<Book>) returns (r: Result<seq<string>>)
    ensures r.Err? <==> forall i :: 0 <= i < |books| ==> books[i].id != bookId
    ensures r.Err? ==> r.error == BookNotFound(bookId)
    ensures r.Ok? ==>
      GetBookById(bookId, books).Some? && r.value == RelatedTitles(GetBookById(bookId, books).value.authors, books)
  {
    var found := GetBookById(bookId, books);
    if found.None? {
      return Err(BookNotFound(bookId));
    }
    var related := JoinBibliographies(found.value.authors, authors, books);
    r := Ok(related);
  }

  /** For each credited author in order, appends every title credited to
      that author. */
  method JoinBibliographies(credits: seq<Credit>, authors: seq<Author>, books: seq<Book>)
    returns (related: seq<string>)
    ensures related == RelatedTitles(credits, books)
  {
    related := [];
    for k := 0 to |credits|
      invariant related == RelatedTitles(credits[..k], books)
    {
      var titles := TitlesByAuthorName(credits[k].name, authors, books);
      RelatedTitlesAppend(credits[..k], [credits[k]], books);
      assert credits[..k + 1] == credits[..k] + [credits[k]];
      related := related + titles;
    }
    assert credits[..|credits|] == credits;
  }

  /** Joining bibliographies over two credit lists placed one after the other gives the two results in the same order. */
  lemma {:induction false} RelatedTitlesAppend(left: seq<Credit>, right: seq<Credit>, books: seq<Book>)
    ensures RelatedTitles(left + right, books) == RelatedTitles(left, books) + RelatedTitles(right, books)
  {
    if |left| > 0 {
      assert (left + right)[1..] == left[1..] + right;
      RelatedTitlesAppend(left[1..], right, books);
    } else {
      assert left + right == right;
    }
  }

  /** A title is related exactly when some book with that title credits one
      of the given authors. */
  lemma {:induction false} RelatedTitlesMembership(credits: seq<Credit>, books: seq<Book>, title: string)
    ensures title in RelatedTitles(credits, books) <==>
      exists k, i :: 0 <= k < |credits| && 0 <= i < |books| && books[i].title == title
        && Credits(books[i], credits[k].name)
  {
    if |credits| > 0 {
      RelatedTitlesMembership(credits[1..], books, title);
      CreditedTitlesMembership(credits[0].name, books, title);
      if exists k, i ::
           0 <= k < |credits| && 0 <= i < |books| && books[i].title == title && Credits(books[i], credits[k].name)
      {
        var k, i :| 0 <= k < |credits| && 0 <= i < |books| && books[i].title == title
          && Credits(books[i], credits[k].name);
        if k > 0 {
          assert credits[1..][k - 1] == credits[k];
        }
      }
    }
  }

  /** When every given author is credited on `books[i]`, that book's title
      occurs at least once per given author. */
  lemma {:induction false} RelatedTitlesCountsBook(credits: seq<Credit>, books: seq<Book>, i: nat)
    requires i < |books|
    requires forall k :: 0 <= k < |credits| ==> Credits(books[i], credits[k].name)
    ensures multiset(RelatedTitles(credits, books))[books[i].title] >= |credits|
  {
    if |credits| > 0 {
      RelatedTitlesCountsBook(credits[1..], books, i);
      var name := credits[0].name;
      CreditedTitlesMultiplicity(name, books, books[i].title);
      CreditsForTitleAtLeast(name, books, i);
      CreditCountPositive(books[i], name);
    }
  }

  /** The credits counted for a title include those on each book carrying that title. */
  lemma {:induction false} CreditsForTitleAtLeast(name: string, books: seq<Book>, i: nat)
    requires i < |books|
    ensures CreditsForTitle(name, books, books[i].title) >= CreditCount(books[i].authors, name)
  {
    if i > 0 {
      assert books[1..][i - 1] == books[i];
      CreditsForTitleAtLeast(name, books[1..], i - 1);
    }
  }

  /** The queried book's own title is repeated once per credited author. */
  lemma RelatedTitlesRepeatOwnTitle(books: seq<Book>, i: nat)
    requires i < |books|
    ensures multiset(RelatedTitles(books[i].authors, books))[books[i].title] >= |books[i].authors|
  {
    forall k | 0 <= k < |books[i].authors| ensures Credits(books[i], books[i].authors[k].name) {
    }
    RelatedTitlesCountsBook(books[i].authors, books, i);
  }
}
