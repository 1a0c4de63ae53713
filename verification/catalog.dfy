/** The two record kinds the library queries, and its notion of
    case-insensitive name equality. */
module Catalog {

  /** An entry of a book's credited-author list: the `{ name }` object. */
  datatype Credit = Credit(name: string)

  /** An author and the ids of the books they wrote, in listed order. */
  datatype Author = Author(name: string, books: seq<int>)

  /** A book: its id, title, cover color and credited authors, in listed order. */
  datatype Book = Book(id: int, title: string, color: string, authors: seq<Credit>)

  /** Upper case of one character, ASCII letters only. */
  function UpperChar(c: char): char
  {
    if 'a' <= c <= 'z' then (c as int - 32) as char else c
  }

  /** Upper case of a string, character by character. */
  function Upper(s: string): string
  {
    seq(|s|, i requires 0 <= i < |s| => UpperChar(s[i]))
  }

  /** Two names match when they agree after upper-casing. */
  predicate SameName(a: string, b: string)
  {
    Upper(a) == Upper(b)
  }

  /** Upper-casing twice is upper-casing once. */
  lemma UpperIdempotent(s: string)
    ensures Upper(Upper(s)) == Upper(s)
  {
  }

  /** A name matches its own upper-cased form. */
  lemma SameNameUpper(s: string)
    ensures SameName(Upper(s), s)
  {
    UpperIdempotent(s);
  }
}
