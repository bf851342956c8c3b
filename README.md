# Reading list: the books view model in Dafny

This project models the book-list state of the ReadingQuantified iOS app's
`BooksViewModel`. The view model holds two lists:

- the canonical list `books`, the books of the most recent completed fetch;
- the visible list, the value of the `booksRelay` that the books screen shows.

Four operations act on them:

- the completions of `loadBooks` and `refreshBooks` replace both lists with
  the fetched list, and refresh also hands that list to the repository's
  `save`;
- `filterBooks(by:selectedScopeButtonIndex:)` recomputes the visible list from
  the canonical list. An empty query shows everything. The title scope keeps
  books whose lowered title contains the lowered query. The two date scopes
  keep books whose date, rendered as "Month Year" and lowered, contains every
  space-separated piece of the lowered query. An index naming no scope does
  nothing;
- `sortBooks(by:)` rearranges the visible list, not the canonical list: by
  title ascending, or by either date string descending. An index naming no
  segment does nothing.

Files:

- `text.dfy` (module `Text`): stand-ins for the Swift string services the
  view model calls: lower-casing, substring search, the `<` ordering of
  strings, and splitting on single spaces.
- `book_list.dfy` (module `BookList`): the book record, the `ScopeButton` and
  `Segment` enumerations with their raw indices and labels, the filter
  predicates and the filter itself, and the sort comparators with the sort.
  All of it is functions and lemmas, as in the source these are closures
  passed to `filter` and `sorted(by:)`.
- `books_view_model.dfy` (module `ViewModel`): the class `BooksViewModel`
  with fields `books`, `visible` and a ghost log `saved`. Its methods are the
  completion handlers, the filter, the sort, and the looping date matcher.
- `examples_scenarios.dfy` (module `BookListExamples`): worked examples of the
  filter and sort rules, and two client methods that follow a screen session:
  `SortSession` (load, unfiltered show, two sorts, a no-op sort) and
  `RefreshSession` (a failed and a delivered refresh).

Collaborators the model does not see are inputs. `Platform` bundles the date
formatter (`BookViewModel.formatDateString`, a function from date text and
pattern to display text, left uninterpreted) and the answer `contains` gives
for an empty needle. Swift's string libraries disagree on that answer, and a
date query with doubled or trailing spaces produces empty pieces. The fetch
arrives as a `FetchOutcome`: either `Delivered(books)`, or `Failed`, for which
the subscription's `onNext` never runs.

## Model

| member | source | states |
|---|---|---|
| `ViewModel.BooksViewModel.constructor` | ReadingQuantified/ReadingQuantified/ViewModels/BooksViewModel.swift:19-25 | both lists start empty and nothing has been saved |
| `ViewModel.BooksViewModel.LoadCompleted` | ReadingQuantified/ReadingQuantified/ViewModels/BooksViewModel.swift:61-70 | a delivered list becomes both the canonical and the visible list; a failed fetch changes nothing; load never saves |
| `ViewModel.BooksViewModel.RefreshCompleted` | ReadingQuantified/ReadingQuantified/ViewModels/BooksViewModel.swift:72-82 | a delivered list becomes both lists and is appended to the save log exactly once; a failed fetch changes nothing and saves nothing |
| `ViewModel.BooksViewModel.FilterBooks` | ReadingQuantified/ReadingQuantified/ViewModels/BooksViewModel.swift:93-114 | the canonical list is unchanged; the visible list becomes `Filtered` of the canonical list alone (not of the previous visible list), or stays as it was when `Filtered` publishes nothing |
| `ViewModel.BooksViewModel.SortBooks` | ReadingQuantified/ReadingQuantified/ViewModels/BooksViewModel.swift:116-136 | the canonical list is unchanged; for an index 0 to 2 the visible list becomes a permutation of itself sorted by that segment's comparator; any other index leaves it unchanged; sorting a list already sorted by that segment keeps the same key at every position, whatever order ties end up in |
| `ViewModel.BooksViewModel.MatchDate` | ReadingQuantified/ReadingQuantified/ViewModels/BooksViewModel.swift:140-151 | the `result` accumulated by the loop over the query pieces equals `MatchesDate`: every lowered piece occurs in the lowered "Month Year" date |
| `BookList.Filtered` | ReadingQuantified/ReadingQuantified/ViewModels/BooksViewModel.swift:93-114 | an empty query publishes the canonical list for any index; a non-empty query with an index outside 0 to 2 publishes nothing; every published list is an order-preserving subsequence of the canonical list; for indices 0 to 2 it holds each book the scope keeps as often as the canonical list does, and no other book; index 0 keeps exactly the books whose lowered title contains the lowered query; indices 1 and 2 keep exactly the books whose start or finish date matches the query |
| `BookList.Select` | ReadingQuantified/ReadingQuantified/ViewModels/BooksViewModel.swift:100-112 | the filter result is a subsequence of its input and holds each kept book as often as the input does and no other book |
| `BookList.FilterIgnoresQueryCase` | ReadingQuantified/ReadingQuantified/ViewModels/BooksViewModel.swift:99-112 | two queries with the same lowered form publish the same list under every scope index |
| `BookList.KeepsIgnoresQueryCase` | ReadingQuantified/ReadingQuantified/ViewModels/BooksViewModel.swift:101 | each scope's predicate gives the same answer for two queries with the same lowered form |
| `BookList.SelectSameKeeps` | ReadingQuantified/ReadingQuantified/ViewModels/BooksViewModel.swift:100-112 | filtering with two queries of the same lowered form keeps the same books |
| `BookList.MatchesDateSplitsLowered` | ReadingQuantified/ReadingQuantified/ViewModels/BooksViewModel.swift:140-151 | the source splits the query and lowers each piece; this equals splitting the lowered query, so a date matches exactly when every piece of the lowered query occurs in the lowered "Month Year" rendering |
| `BookList.MatchesDateOfPieces` | ReadingQuantified/ReadingQuantified/ViewModels/BooksViewModel.swift:140-151 | for a query of non-empty, space-free pieces, the date matches exactly when every lowered piece occurs in the lowered "Month Year" rendering |
| `BookList.SplitLower` | ReadingQuantified/ReadingQuantified/ViewModels/BooksViewModel.swift:144-147 | splitting the lowered query gives the lowered pieces of the query, one for one |
| `BookList.ScopeFromRaw` | ReadingQuantified/ReadingQuantified/ViewModels/BooksViewModel.swift:27-28 | a scope button exists exactly for the raw values 0 to 2, and it carries the raw value it was made from |
| `BookList.ScopeRawRoundTrip` | ReadingQuantified/ReadingQuantified/ViewModels/BooksViewModel.swift:27-28 | every scope button is recovered from its raw value |
| `BookList.SegmentFromRaw` | ReadingQuantified/ReadingQuantified/ViewModels/BooksViewModel.swift:55-57 | a segment exists exactly for the raw values 0 to 2, and it carries the raw value it was made from |
| `BookList.SegmentRawRoundTrip` | ReadingQuantified/ReadingQuantified/ViewModels/BooksViewModel.swift:55-57 | every segment is recovered from its raw value |
| `BookList.ScopeLabels` | ReadingQuantified/ReadingQuantified/ViewModels/BooksViewModel.swift:30-48 | the label list holds each button's label at its raw index; the labels tell the buttons apart |
| `BookList.PlaceholderHints` | ReadingQuantified/ReadingQuantified/ViewModels/BooksViewModel.swift:84-91 | two scopes have the same search hint exactly when both are date scopes or both are the title scope |
| `BookList.Insert` | ReadingQuantified/ReadingQuantified/ViewModels/BooksViewModel.swift:122-134 | inserting into a sorted list adds exactly that book and keeps the list sorted |
| `BookList.SortBy` | ReadingQuantified/ReadingQuantified/ViewModels/BooksViewModel.swift:122-134 | `sorted(by:)` with a segment's comparator returns a permutation of its input in which no book is preceded by a later one |
| `BookList.SortedByTitleAscends` | ReadingQuantified/ReadingQuantified/ViewModels/BooksViewModel.swift:120-124 | in a list sorted by the title segment, titles ascend: each earlier title is equal to or `<` each later one |
| `BookList.SortedByDateDescends` | ReadingQuantified/ReadingQuantified/ViewModels/BooksViewModel.swift:125-134 | in a list sorted by a date segment, that date descends: each earlier date is equal to or `>` each later one |
| `BookList.SortIdempotent` | ReadingQuantified/ReadingQuantified/ViewModels/BooksViewModel.swift:119-135 | sorting a list already sorted by the same segment returns it unchanged |
| `BookList.SortAfterFilter` | ReadingQuantified/ReadingQuantified/ViewModels/BooksViewModel.swift:98-135 | sorting a filtered list shows only canonical books that the filter keeps |
| `BookList.SortedPairUnique` | ReadingQuantified/ReadingQuantified/ViewModels/BooksViewModel.swift:119-135 | of two books, one strictly before the other, the only sorted arrangement puts that one first |
| `BookList.Precedes` | ReadingQuantified/ReadingQuantified/ViewModels/BooksViewModel.swift:122-134 | each segment's comparator is strict: a book never precedes one with the same sort key |
| `BookList.NeitherPrecedesSameKey` | ReadingQuantified/ReadingQuantified/ViewModels/BooksViewModel.swift:122-134 | two books neither of which precedes the other have the same sort key |
| `BookList.SortedPermutationsAgreeOnKeys` | ReadingQuantified/ReadingQuantified/ViewModels/BooksViewModel.swift:119-135 | two sorted rearrangements of the same books agree on the sort key at every position, so `sorted(by:)` fixes the order of keys whatever it does with ties |
| `BookList.SortedFirstKeysAgree` | ReadingQuantified/ReadingQuantified/ViewModels/BooksViewModel.swift:119-135 | two sorted rearrangements of the same books start with the same key |
| `BookList.SortedWithout` | ReadingQuantified/ReadingQuantified/ViewModels/BooksViewModel.swift:119-135 | leaving one book out of a sorted list keeps it sorted |
| `BookList.PrecedesAsymmetric` | ReadingQuantified/ReadingQuantified/ViewModels/BooksViewModel.swift:122-134 | no two books each precede the other under a segment's comparator |
| `BookList.NotPrecedesTransitive` | ReadingQuantified/ReadingQuantified/ViewModels/BooksViewModel.swift:122-134 | "not preceded by" chains along three books under every comparator |
| `BookList.NotLessTransitive` | ReadingQuantified/ReadingQuantified/ViewModels/BooksViewModel.swift:123 | "not `<`" between strings is transitive |
| `Text.Less` | ReadingQuantified/ReadingQuantified/ViewModels/BooksViewModel.swift:123 | `String <` is strict: a string is never `<` itself |
| `Text.LessTransitive` | ReadingQuantified/ReadingQuantified/ViewModels/BooksViewModel.swift:128 | `<` on strings is transitive |
| `Text.LessTotal` | ReadingQuantified/ReadingQuantified/ViewModels/BooksViewModel.swift:133 | of two distinct strings, one is `<` the other |
| `Text.Lower` | ReadingQuantified/ReadingQuantified/ViewModels/BooksViewModel.swift:101 | lowering keeps the length, leaves no capital letter, and changes only capitals |
| `Text.LowerChar` | ReadingQuantified/ReadingQuantified/ViewModels/BooksViewModel.swift:142 | the lowered character is never a capital; a character that changes was a capital, and a capital becomes a small letter |
| `Text.LowerCons` | ReadingQuantified/ReadingQuantified/ViewModels/BooksViewModel.swift:142 | lowering a string lowers its first character and then the rest |
| `Text.LowerIdempotent` | ReadingQuantified/ReadingQuantified/ViewModels/BooksViewModel.swift:142 | lowering twice is lowering once |
| `Text.LowerKeepsSpaces` | ReadingQuantified/ReadingQuantified/ViewModels/BooksViewModel.swift:144 | a character lowers to a space exactly when it is a space |
| `Text.SubstringOfConcat` | ReadingQuantified/ReadingQuantified/ViewModels/BooksViewModel.swift:147 | a string contains any occurrence of the needle whatever surrounds it |
| `Text.SubstringHasOccurrence` | ReadingQuantified/ReadingQuantified/ViewModels/BooksViewModel.swift:147 | a contained needle is an occurrence: the string is some text, then the needle, then some text (the converse of `SubstringOfConcat`) |
| `Text.SubstringNoLonger` | ReadingQuantified/ReadingQuantified/ViewModels/BooksViewModel.swift:147 | a needle that is contained is no longer than the string |
| `Text.SubstringCharacters` | ReadingQuantified/ReadingQuantified/ViewModels/BooksViewModel.swift:147 | every character of a contained needle is a character of the string |
| `Text.MissingCharacterNotSubstring` | ReadingQuantified/ReadingQuantified/ViewModels/BooksViewModel.swift:147 | a needle holding a character the string lacks is not contained |
| `Text.Split` | ReadingQuantified/ReadingQuantified/ViewModels/BooksViewModel.swift:144 | splitting on " " gives at least one piece and no piece contains a space |
| `Text.JoinSplit` | ReadingQuantified/ReadingQuantified/ViewModels/BooksViewModel.swift:144 | joining the pieces with single spaces gives back the query |
| `Text.SplitJoin` | ReadingQuantified/ReadingQuantified/ViewModels/BooksViewModel.swift:144 | splitting space-free pieces joined by single spaces gives back the pieces |
| `Text.SplitCons` | ReadingQuantified/ReadingQuantified/ViewModels/BooksViewModel.swift:144 | a leading space starts a new, empty first piece; any other leading character joins the first piece of the rest |
| `Text.SplitAtSpace` | ReadingQuantified/ReadingQuantified/ViewModels/BooksViewModel.swift:144 | a space-free piece followed by a space splits off as the first piece |
| `Text.SplitNoSpace` | ReadingQuantified/ReadingQuantified/ViewModels/BooksViewModel.swift:144 | a string without spaces is a single piece |
| `BookListExamples.TitleSearchExample` | ReadingQuantified/ReadingQuantified/ViewModels/BooksViewModel.swift:99-102 | a title search for "potter" keeps "Harry Potter" |
| `BookListExamples.DateSearchMatches` | ReadingQuantified/ReadingQuantified/ViewModels/BooksViewModel.swift:140-151 | with "2019-04-15" rendered as "April 2019", the query "2019 april" matches |
| `BookListExamples.DateSearchRejects` | ReadingQuantified/ReadingQuantified/ViewModels/BooksViewModel.swift:140-151 | with the same rendering, the query "2019 may" does not match |

## Left out

- The RxSwift and Moya plumbing (the relay, `subscribe(onNext:)`, the dispose
  bag) is not modelled. The completion bodies are methods that take the fetch
  outcome, and publishing is assignment to `visible`.
- The `[weak self]` guard that drops a completion after the view model is
  gone is not modelled, nor the order in which overlapping fetches complete:
  both belong to the runtime.
- `BooksRepositoryManager.getAll` and `save` are calls into code the model
  cannot see. A fetch is its outcome, and `save` is an entry in the ghost log
  `saved`; whether the save succeeds is not modelled.
- `BookViewModel.formatDateString` is not part of this model: it is the
  uninterpreted `Platform.formatDate`.
- `Text.Lower` lowers ASCII letters only; Swift's `lowercased()` follows the
  Unicode case mappings, which can also change a string's length.
- `Text.IsSubstring` matches character codes one for one; Swift's `contains`
  matches whole Characters under canonical equivalence, so a title spelling
  "é" as "e" followed by a combining accent contains "cafe" in the model but
  not in Swift.
- `Text.Less` compares character codes; Swift's `String <` compares Unicode
  scalar values after canonical normalisation.
- `BookList.Contains` leaves the empty-needle answer to the platform, so the
  date-filter result for a query with doubled or trailing spaces is stated
  but not fixed.
- `ViewModel.BooksViewModel.SortBooks` promises a sorted permutation and not
  a particular order among books with equal keys, because `sorted(by:)` does
  not promise stability. Re-sorting an already sorted list is therefore
  promised key by key (`BookList.SortedPermutationsAgreeOnKeys`), not book by
  book. `BookList.SortBy`, the sort used to implement it, happens to be
  stable, and `BookList.SortIdempotent` is proved of that sort only.
- The dependency-injection wiring in `SwinjectStoryboardSetup.swift` is not
  modelled. Its registration passes a coordinator that the view model's
  one-argument initialiser does not take; the model follows the initialiser.
- The fields of a book other than its title and two dates are not read by
  this code and are not modelled; the `Book` type's own source file is not
  part of this model.
