/** Projection of each author onto their book count. */
module Counts {
  import opened Catalog

  /** One entry of the projection: `{ author, bookCount }`. */
  datatype BookCount = BookCount(author: string, bookCount: nat)

  /** Each author, in input order, paired with the number of book ids it lists.
      Entry `i` describes author `i`: nothing is dropped, added or reordered. */
  function BookCountsByAuthor(authors: seq<Author>): (r: seq<BookCount>)
    ensures |r| == |authors|
    ensures forall i :: 0 <= i < |authors| ==>
      r[i].author == authors[i].name && r[i].bookCount == |authors[i].books|
  {
    if |authors| == 0 then []
    else [BookCount(authors[0].name, |authors[0].books|)] + BookCountsByAuthor(authors[1..])
  }

  /** The projection of two lists placed one after the other is the two
      projections placed one after the other. */
  lemma BookCountsByAuthorAppend(left: seq<Author>, right: seq<Author>)
    ensures BookCountsByAuthor(left + right) == BookCountsByAuthor(left) + BookCountsByAuthor(right)
  {
  }
}
