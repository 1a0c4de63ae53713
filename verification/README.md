# Book and author query library, modelled in Dafny

This project models a small query library over two in-memory collections:
**authors**, each with a name and a list of book ids, and **books**, each with an
id, a title, a cover color and a list of credited author names. The library
has eight operations:

- two lookups: `getBookById` by exact id, and `getAuthorByName`, which ignores case;
- one projection: `bookCountsByAuthor`;
- one grouping: `booksByColor`;
- two filter-and-concatenate queries: `titlesByAuthorName` and `relatedBooks`;
- two argmax selections: `mostProlificAuthor` and `friendliestAuthor`.

Layout (one module per file):

- `outcomes.dfy` (`Outcomes`) has the absence value `Option` and the explicit failure `Result`.
- `seqs.dfy` (`Seqs`) has the linear `find`, as `FindFirst`, and `Repeat`.
- `catalog.dfy` (`Catalog`) has the `Author`, `Credit` and `Book` records, plus case-insensitive name equality. `SameName` means "equal after `Upper`".
- `lookup.dfy` (`Lookup`): `getBookById` and `getAuthorByName`.
- `counts.dfy` (`Counts`): `bookCountsByAuthor`.
- `colors.dfy` (`Colors`): `booksByColor`.
- `titles.dfy` (`Titles`): `titlesByAuthorName` and `relatedBooks`.
- `selection.dfy` (`Selection`): `mostProlificAuthor` and `friendliestAuthor`.

Where `functions.js` loops with `forEach` and `push`, a method's loop follows that
iteration. The method is then proved equal to a recursive reference definition,
for example `CreditedTitles`, `TitlesOfColor` or `RelatedTitles`. Lemmas about
the reference definitions state order, multiplicity, grouping and membership.

Every value is immutable, so repeated calls cannot observe any change to
`authors` or `books`. The in-place sort in `functions.js`'s `mostProlificAuthor` is
replaced by a best-so-far scan, `SelectMax`. That scan returns the first
maximal position, which is where a stable descending sort puts its first
element.

The `relatedBooks` doc comment (functions.js:141-144) shows an example result
with "Good Omens" twice at the front. The code produces one block of titles per
credited author, in credit order, and each block lists that author's titles in
book order. So the two copies of the queried book's title need not be at the
front or next to each other. The model follows the code.

## Model

| member | source | states |
|---|---|---|
| Seqs.FindFirst | functions.js:12 | `find` returns the first element that satisfies the predicate, or nothing exactly when no element does |
| Lookup.GetBookById | functions.js:4-14 | the result is the first book whose id equals the argument; it is absent exactly when no book has that id, including on an empty list |
| Lookup.GetBookByIdUnique | functions.js:8-13 | when ids are unique, the book found is the one book carrying that id |
| Lookup.GetAuthorByName | functions.js:17-29 | the result is the first author whose upper-cased name equals the upper-cased query; it is absent exactly when there is no such author |
| Lookup.GetAuthorByNameCaseInsensitive | functions.js:21-27 | two queries that agree after upper-casing find the same author |
| Lookup.GetAuthorByNameUpper | functions.js:24-28 | a query and its upper-cased form find the same author |
| Counts.BookCountsByAuthor | functions.js:32-43 | the output has one entry per author in input order; entry i pairs author i's name with its number of book ids |
| Counts.BookCountsByAuthorAppend | functions.js:38-42 | the projection keeps order: projecting two lists placed one after the other gives the two projections placed one after the other |
| Colors.BooksByColor | functions.js:46-61 | the keys are exactly the colors that occur; each color's list is the titles of that color's books, in input order |
| Colors.GroupingStep | functions.js:56-59 | one more book appends its title to the end of its color's list, or creates the list `[title]` when the color is new, and leaves every other color alone |
| Colors.BookListedUnderColor | functions.js:56-59 | every book's title is listed under that book's color |
| Colors.ColorGroupingSize | functions.js:53-60 | the grouping is a partition: the list lengths add up to the number of books |
| Titles.TitlesByAuthorName | functions.js:88-107 | the nested scan gives, book by book in input order, each title once per credit matching the name ignoring case |
| Titles.CreditedCopies | functions.js:101-104 | the scan of one book's credits yields that book's title once per credit matching the name ignoring case, and nothing else |
| Titles.CreditedTitlesAppend | functions.js:98-105 | order is kept: the titles from two book lists placed one after the other are the two results in the same order |
| Titles.CreditedTitlesMultiplicity | functions.js:101-104 | each title occurs exactly as many times as the name is credited, ignoring case, on the books with that title |
| Titles.CreditedTitlesMembership | functions.js:93-104 | a title is returned exactly when some book with that title credits the name |
| Titles.CreditedTitlesEmpty | functions.js:96-106 | the result is empty exactly when no book credits the name |
| Titles.CreditedTitlesCaseInsensitive | functions.js:102 | names that agree after upper-casing get the same titles |
| Titles.RelatedBooks | functions.js:125-159 | fails with BookNotFound exactly when no book has the id; otherwise returns the credited authors' titles concatenated in credit order, with no deduplication |
| Titles.JoinBibliographies | functions.js:153-157 | the loop over credited names appends each name's titles in credit order, keeping duplicates |
| Titles.RelatedTitlesMembership | functions.js:130-132 | a title is related exactly when a book with that title credits one of the queried book's authors |
| Titles.RelatedTitlesCountsBook | functions.js:154-157 | when every queried author is credited on one book, that book's title occurs at least once per queried author |
| Titles.RelatedTitlesRepeatOwnTitle | functions.js:139-144 | the queried book's own title occurs at least once per credited author, so it is not deduplicated |
| Selection.SelectMax | functions.js:118-121 | the chosen key is at least every key, and no earlier key equals it (the head of a stable descending sort) |
| Selection.MostProlificAuthor | functions.js:110-122 | returns the name of an author whose book count is at least every author's; an author who strictly leads is the answer; an empty list fails with NoAuthors |
| Selection.CoauthoredCountBounds | functions.js:174-179 | a score is at most the number of listed ids, and it is zero exactly when none of them is a co-authored book |
| Selection.AuthorScore | functions.js:174-179 | counts, with repetition, the author's listed ids whose book credits more than one author; fails with an id that is listed and resolves to no book exactly when such an id exists |
| Selection.CollaborationScores | functions.js:173-182 | gives each author's count of listed ids that resolve to a book with more than one credited author, in author order; it fails exactly when some listed id resolves to no book |
| Selection.FriendliestAuthor | functions.js:166-188 | returns the name of an author whose collaboration score is at least every author's; an author who strictly leads is the answer; an empty list or an unresolved id gives an explicit failure |

## Left out

- Loading `authors.json` and `books.json` and the `module.exports` block (functions.js:1-2, 191-200) are module and I/O plumbing. Both collections are parameters here.
- `friendliestAuthor` reads the module-level `books` (functions.js:176). It is modelled with an explicit `books` parameter.
- The `authors.sort` call reorders the caller's array in place (functions.js:118). Dafny values are immutable, so this is modelled as a pure choice of a maximal element.
- Selection.MostProlificAuthor: does not promise which tied author wins. The doc comment of `mostProlificAuthor` says there is never a tie (functions.js:115). `SelectMax` does return the first maximal author.
- Selection.FriendliestAuthor: does not promise which tied author wins, for the same reason.
- `toUpperCase` is modelled for ASCII letters only (`Catalog.Upper`). Full Unicode case mapping is left out.
- `functions.js` faults when it dereferences a missing book (functions.js:151, 178) or reads `x[0]` of an empty array (functions.js:121, 187). These are modelled as explicit `Err` results.
- The commented-out alternative `booksByColor` (functions.js:63-85) and the commented-out deduplication in `relatedBooks` (functions.js:160-162) are dead code and are not modelled.
- The `console.log` lines are debugging output and are not modelled.
- Colors.BooksByColor: the result is a JavaScript object, and keys that the runtime treats specially are not modelled. With the color `"__proto__"`, the assignment at functions.js:57 goes to the prototype setter and creates no own key, yet the model lists that color as a key. With the color `"hasOwnProperty"`, the stored array shadows the method, so the next book's `hasOwnProperty` call at functions.js:57 throws, yet the model still returns a grouping.
- The key order of the JavaScript object that `booksByColor` returns is not modelled. A Dafny `map` has no key order.
