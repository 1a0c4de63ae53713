/** Picking the author who maximises a score: the most books, or the most
    co-authored books. */
module Selection {
  import opened Outcomes
  import opened Catalog
  import opened Lookup

  /** The position of a maximal key. It is the first maximal one, which is
      where a stable sort by descending key puts its leading element. */
  method SelectMax(keys: seq<int>) returns (k: nat)
    requires |keys| > 0
    ensures k < |keys|
    ensures forall j :: 0 <= j < |keys| ==> keys[j] <= keys[k]
    ensures forall j :: 0 <= j < k ==> keys[j] < keys[k]
  {
    k := 0;
    for i := 1 to |keys|
      invariant k < i
      invariant forall j :: 0 <= j < i ==> keys[j] <= keys[k]
      invariant forall j :: 0 <= j < k ==> keys[j] < keys[k]
    {
      if keys[i] > keys[k] {
        k := i;
      }
    }
  }

  /** Author `i` has strictly more books than every other author. */
  predicate StrictlyMostBooks(authors: seq<Author>, i: nat)
    requires i < |authors|
  {
    forall j :: 0 <= j < |authors| && j != i ==> |authors[j].books| < |authors[i].books|
  }

  /** The name of an author with the most book ids; `NoAuthors` on an empty
      list. When one author strictly leads, that author is the answer. */
  method MostProlificAuthor(authors: seq<Author>) returns (r: Result<string>)
    ensures r.Err? <==> |authors| == 0
    ensures r.Err? ==> r.error == NoAuthors
    ensures r.Ok? ==>
      exists i :: 0 <= i < |authors| && r.value == authors[i].name
        && forall j :: 0 <= j < |authors| ==> |authors[j].books| <= |authors[i].books|
    ensures forall i :: 0 <= i < |authors| && StrictlyMostBooks(authors, i) ==> r == Ok(authors[i].name)
  {
    if |authors| == 0 {
      return Err(NoAuthors);
    }
    var counts := seq(|authors|, i requires 0 <= i < |authors| => |authors[i].books|);
    var k := SelectMax(counts);
    assert forall j :: 0 <= j < |authors| ==> |authors[j].books| <= |authors[k].books| by {
      assert forall j :: 0 <= j < |authors| ==> counts[j] == |authors[j].books|;
    }
    r := Ok(authors[k].name);
  }

  /** The book with id `bookId` exists. */
  predicate Resolves(bookId: int, books: seq<Book>)
  {
    exists i :: 0 <= i < |books| && books[i].id == bookId
  }

  /** An id resolves exactly when the lookup finds a book for it. */
  lemma FoundIffResolves(bookId: int, books: seq<Book>)
    ensures GetBookById(bookId, books).Some? <==> Resolves(bookId, books)
  {
  }

  /** Every id in `ids` resolves to a book. */
  predicate IdsResolve(ids: seq<int>, books: seq<Book>)
  {
    forall k :: 0 <= k < |ids| ==> Resolves(ids[k], books)
  }

  /** One more id keeps every id resolving exactly when that id resolves. */
  lemma IdsResolveSnoc(ids: seq<int>, k: nat, books: seq<Book>)
    requires k < |ids|
    ensures IdsResolve(ids[..k + 1], books) <==> IdsResolve(ids[..k], books) && Resolves(ids[k], books)
  {
    assert ids[..k + 1] == ids[..k] + [ids[k]];
  }

  /** Every book id listed by every author resolves to a book. */
  predicate AllBooksResolve(authors: seq<Author>, books: seq<Book>)
  {
    forall i, k :: 0 <= i < |authors| && 0 <= k < |authors[i].books| ==> Resolves(authors[i].books[k], books)
  }

  /** The book with id `bookId` exists and credits more than one author. */
  predicate IsCoauthored(bookId: int, books: seq<Book>)
  {
    var found := GetBookById(bookId, books);
    found.Some? && |found.value.authors| > 1
  }

  /** How many of the listed ids (counted with repetition) are co-authored books. */
  function CoauthoredCount(ids: seq<int>, books: seq<Book>): nat
  {
    if |ids| == 0 then 0
    else (if IsCoauthored(ids[0], books) then 1 else 0) + CoauthoredCount(ids[1..], books)
  }

  /** An author's collaboration score. */
  function Score(author: Author, books: seq<Book>): nat
  {
    CoauthoredCount(author.books, books)
  }

  /** Counting co-authored ids over a concatenation adds the counts of the parts. */
  lemma {:induction false} CoauthoredCountAppend(left: seq<int>, right: seq<int>, books: seq<Book>)
    ensures CoauthoredCount(left + right, books) == CoauthoredCount(left, books) + CoauthoredCount(right, books)
  {
    if |left| > 0 {
      assert (left + right)[1..] == left[1..] + right;
      CoauthoredCountAppend(left[1..], right, books);
    } else {
      assert left + right == right;
    }
  }

  /** One more id raises the count by one exactly when it is a co-authored book. */
  lemma CoauthoredCountSnoc(ids: seq<int>, k: nat, books: seq<Book>)
    requires k < |ids|
    ensures CoauthoredCount(ids[..k + 1], books)
      == CoauthoredCount(ids[..k], books) + (if IsCoauthored(ids[k], books) then 1 else 0)
  {
    CoauthoredCountAppend(ids[..k], [ids[k]], books);
    assert ids[..k + 1] == ids[..k] + [ids[k]];
  }

  /** A score never exceeds the number of listed ids, and it is zero exactly
      when none of them is a co-authored book. */
  lemma {:induction false} CoauthoredCountBounds(ids: seq<int>, books: seq<Book>)
    ensures CoauthoredCount(ids, books) <= |ids|
    ensures CoauthoredCount(ids, books) == 0 <==> forall k :: 0 <= k < |ids| ==> !IsCoauthored(ids[k], books)
  {
    if |ids| > 0 {
      CoauthoredCountBounds(ids[1..], books);
      assert forall k :: 1 <= k < |ids| ==> ids[1..][k - 1] == ids[k];
    }
  }

  /** One author's collaboration score, counting the listed ids (with
      repetition) whose book credits more than one author; fails with the
      first listed id that resolves to no book. */
  method AuthorScore(ids: seq<int>, books: seq<Book>) returns (r: Result<nat>)
    ensures r.Ok? <==> IdsResolve(ids, books)
    ensures r.Ok? ==> r.value == CoauthoredCount(ids, books)
    ensures r.Err? ==> r.error.BookNotFound? && r.error.id in ids && !Resolves(r.error.id, books)
  {
    var score: nat := 0;
    for k := 0 to |ids|
      invariant score == CoauthoredCount(ids[..k], books)
      invariant IdsResolve(ids[..k], books)
    {
      var found := GetBookById(ids[k], books);
      FoundIffResolves(ids[k], books);
      if found.None? {
        assert ids[k] in ids && !Resolves(ids[k], books);
        assert !IdsResolve(ids, books);
        return Err(BookNotFound(ids[k]));
      }
      IdsResolveSnoc(ids, k, books);
      CoauthoredCountSnoc(ids, k, books);
      if |found.value.authors| > 1 {
        score := score + 1;
      }
    }
    assert ids[..|ids|] == ids;
    r := Ok(score);
  }

  /** Each author's collaboration score, in author order; fails with the first
      listed id (author by author, id by id) that resolves to no book. */
  method CollaborationScores(authors: seq<Author>, books: seq<Book>) returns (r: Result<seq<nat>>)
    ensures r.Ok? <==> AllBooksResolve(authors, books)
    ensures r.Ok? ==> |r.value| == |authors|
    ensures r.Ok? ==> forall i :: 0 <= i < |authors| ==> r.value[i] == Score(authors[i], books)
    ensures r.Err? ==> r.error.BookNotFound? && !Resolves(r.error.id, books)
    ensures r.Err? ==>
      exists i, k :: 0 <= i < |authors| && 0 <= k < |authors[i].books| && authors[i].books[k] == r.error.id
  {
    var scores: seq<nat> := [];
    for i := 0 to |authors|
      invariant |scores| == i
      invariant forall p :: 0 <= p < i ==> scores[p] == Score(authors[p], books)
      invariant forall p, k :: 0 <= p < i && 0 <= k < |authors[p].books| ==> Resolves(authors[p].books[k], books)
    {
      var score := AuthorScore(authors[i].books, books);
      if score.Err? {
        var k :| 0 <= k < |authors[i].books| && authors[i].books[k] == score.error.id;
        return Err(score.error);
      }
      scores := scores + [score.value];
    }
    r := Ok(scores);
  }

  /** Author `i` has a strictly higher collaboration score than every other author. */
  predicate StrictlyFriendliest(authors: seq<Author>, books: seq<Book>, i: nat)
    requires i < |authors|
  {
    forall j :: 0 <= j < |authors| && j != i ==> Score(authors[j], books) < Score(authors[i], books)
  }

  /** The name of an author with the highest collaboration score. Fails with
      `NoAuthors` on an empty list and with `BookNotFound` when some listed id
      resolves to no book. When one author strictly leads, that author is the
      answer. */
  method FriendliestAuthor(authors: seq<Author>, books: seq<Book>) returns (r: Result<string>)
    ensures r.Ok? <==> |authors| > 0 && AllBooksResolve(authors, books)
    ensures r.Err? ==> (r.error == NoAuthors <==> |authors| == 0)
    ensures r.Err? && r.error.BookNotFound? ==>
      exists i, k :: 0 <= i < |authors| && 0 <= k < |authors[i].books| && authors[i].books[k] == r.error.id
        && !Resolves(r.error.id, books)
    ensures r.Ok? ==>
      exists i :: 0 <= i < |authors| && r.value == authors[i].name
        && forall j :: 0 <= j < |authors| ==> Score(authors[j], books) <= Score(authors[i], books)
    ensures AllBooksResolve(authors, books) ==>
      forall i :: 0 <= i < |authors| && StrictlyFriendliest(authors, books, i) ==> r == Ok(authors[i].name)
  {
    var scores := CollaborationScores(authors, books);
    if scores.Err? {
      return Err(scores.error);
    }
    if |authors| == 0 {
      return Err(NoAuthors);
    }
    var k := SelectMax(scores.value);
    r := Ok(authors[k].name);
  }
}
