/** The two direct lookups: a book by exact id, an author by name ignoring case. */
module Lookup {
  import opened Outcomes
  import opened Seqs
  import opened Catalog

  /** The first book whose id equals `bookId`; `None` when no book has it. */
  function GetBookById(bookId: int, books: seq<Book>): (r: Option<Book>)
    ensures r.None? <==> forall i :: 0 <= i < |books| ==> books[i].id != bookId
    ensures r.Some? ==>
      exists i :: 0 <= i < |books| && books[i] == r.value && r.value.id == bookId
        && forall j :: 0 <= j < i ==> books[j].id != bookId
  {
    match FindFirst(books, (b: Book) => b.id == bookId)
    case None => None
    case Some(i) => Some(books[i])
  }

  /** No two books share an id. */
  predicate UniqueIds(books: seq<Book>)
  {
    forall i, j :: 0 <= i < j < |books| ==> books[i].id != books[j].id
  }

  /** With unique ids, the book found for an id is the one book carrying it. */
  lemma GetBookByIdUnique(bookId: int, books: seq<Book>, i: nat)
    requires UniqueIds(books)
    requires i < |books| && books[i].id == bookId
    ensures GetBookById(bookId, books) == Some(books[i])
  {
    var r := GetBookById(bookId, books);
    var k :| 0 <= k < |books| && books[k] == r.value && r.value.id == bookId
      && forall j :: 0 <= j < k ==> books[j].id != bookId;
    assert k == i;
  }

  /** The first author whose name equals `authorName` after upper-casing
      both; `None` when there is no such author. */
  function GetAuthorByName(authorName: string, authors: seq<Author>): (r: Option<Author>)
    ensures r.None? <==> forall i :: 0 <= i < |authors| ==> !SameName(authors[i].name, authorName)
    ensures r.Some? ==>
      exists i :: 0 <= i < |authors| && authors[i] == r.value && SameName(r.value.name, authorName)
        && forall j :: 0 <= j < i ==> !SameName(authors[j].name, authorName)
  {
    match FindFirst(authors, (a: Author) => SameName(a.name, authorName))
    case None => None
    case Some(i) => Some(authors[i])
  }

  /** Queries that agree after upper-casing find the same author. */
  lemma GetAuthorByNameCaseInsensitive(name1: string, name2: string, authors: seq<Author>)
    requires SameName(name1, name2)
    ensures GetAuthorByName(name1, authors) == GetAuthorByName(name2, authors)
  {
    var r1 := GetAuthorByName(name1, authors);
    var r2 := GetAuthorByName(name2, authors);
    if r1.Some? && r2.Some? {
      var i1 :| 0 <= i1 < |authors| && authors[i1] == r1.value && SameName(r1.value.name, name1)
        && forall j :: 0 <= j < i1 ==> !SameName(authors[j].name, name1);
      var i2 :| 0 <= i2 < |authors| && authors[i2] == r2.value && SameName(r2.value.name, name2)
        && forall j :: 0 <= j < i2 ==> !SameName(authors[j].name, name2);
      assert i1 == i2;
    }
  }

  /** In particular a query finds the same author as its upper-cased form. */
  lemma GetAuthorByNameUpper(authorName: string, authors: seq<Author>)
    ensures GetAuthorByName(Upper(authorName), authors) == GetAuthorByName(authorName, authors)
  {
    SameNameUpper(authorName);
    GetAuthorByNameCaseInsensitive(Upper(authorName), authorName, authors);
  }
}
