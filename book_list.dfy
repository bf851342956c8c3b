/** The value side of the book list: the book record, the two index-backed
    enumerations, the filter predicates and the sort comparators that the
    view model hands to `filter` and `sorted(by:)`. */
module BookList {
  import opened Text

  datatype Option<T> = None | Some(value: T)

  /** The fields of a book that the list logic reads. Dates are free text. */
  datatype Book = Book(title: string, dateStarted: string, dateFinished: string)

  /** The search bar's scope buttons, backed by the indices 0, 1, 2. */
  datatype ScopeButton = Title | DateStarted | DateFinished

  /** The sort control's segments, backed by the indices 0, 1, 2. */
  datatype Segment = Title | DateStarted | DateFinished

  /** What the list logic needs from the platform and cannot see: the date
      formatter (date text and pattern to display text) and the answer
      `contains` gives for an empty needle, which differs between Swift
      string libraries. */
  datatype Platform = Platform(formatDate: (string, string) -> string, emptyNeedleMatches: bool)

  /** The pattern the date filter formats with: full month name and year. */
  const MonthYear: string := "MMMM yyyy"

  // ---------------------------------------------------------------------
  // Enumerations and their labels

  function ScopeRawValue(s: ScopeButton): int {
    match s
    case Title => 0
    case DateStarted => 1
    case DateFinished => 2
  }

  /** `ScopeButton(rawValue:)`: a button exactly for the indices 0 to 2, and
      that button carries the index it was made from. */
  function ScopeFromRaw(i: int): (r: Option<ScopeButton>)
    ensures r.Some? <==> 0 <= i <= 2
    ensures r.Some? ==> ScopeRawValue(r.value) == i
  {
    if i == 0 then Some(ScopeButton.Title)
    else if i == 1 then Some(ScopeButton.DateStarted)
    else if i == 2 then Some(ScopeButton.DateFinished)
    else None
  }

  lemma ScopeRawRoundTrip(s: ScopeButton)
    ensures ScopeFromRaw(ScopeRawValue(s)) == Some(s)
  {
  }

  function SegmentRawValue(s: Segment): int {
    match s
    case Title => 0
    case DateStarted => 1
    case DateFinished => 2
  }

  /** `Segment(rawValue:)`: a segment exactly for the indices 0 to 2, and
      that segment carries the index it was made from. */
  function SegmentFromRaw(i: int): (r: Option<Segment>)
    ensures r.Some? <==> 0 <= i <= 2
    ensures r.Some? ==> SegmentRawValue(r.value) == i
  {
    if i == 0 then Some(Segment.Title)
    else if i == 1 then Some(Segment.DateStarted)
    else if i == 2 then Some(Segment.DateFinished)
    else None
  }

  lemma SegmentRawRoundTrip(s: Segment)
    ensures SegmentFromRaw(SegmentRawValue(s)) == Some(s)
  {
  }

  /** The label shown on each scope button. */
  function ScopeTitle(s: ScopeButton): string {
    match s
    case Title => "Title"
    case DateStarted => "Date Started"
    case DateFinished => "Date Finished"
  }

  /** The labels in button order, as the search bar is configured with them. */
  const ScopeButtonTitles: seq<string> :=
    [ScopeTitle(ScopeButton.Title), ScopeTitle(ScopeButton.DateStarted), ScopeTitle(ScopeButton.DateFinished)]

  /** The search field's hint: a title example, or one date example shared by
      both date scopes. */
  function SearchPlaceholder(s: ScopeButton): string {
    match s
    case Title => "Ex: Harry Potter"
    case DateStarted | DateFinished => "Ex: 2019, April 2019, Apr 2019"
  }

  /** The label at a button's raw index is that button's label, and the
      labels tell the buttons apart. */
  lemma ScopeLabels(s: ScopeButton, t: ScopeButton)
    ensures |ScopeButtonTitles| == 3 && ScopeButtonTitles[ScopeRawValue(s)] == ScopeTitle(s)
    ensures ScopeTitle(s) == ScopeTitle(t) <==> s == t
  {
  }

  /** The two date scopes share one hint, and it differs from the title
      hint. */
  lemma PlaceholderHints(s: ScopeButton, t: ScopeButton)
    ensures SearchPlaceholder(s) == SearchPlaceholder(t) <==> (s == ScopeButton.Title <==> t == ScopeButton.Title)
  {
  }

  // ---------------------------------------------------------------------
  // Filtering

  /** `contains` as the platform answers it. */
  predicate Contains(p: Platform, hay: string, needle: string) {
    if needle == [] then p.emptyNeedleMatches else IsSubstring(needle, hay)
  }

  /** The title predicate: the lowered title contains the lowered query. */
  predicate TitleMatches(p: Platform, b: Book, query: string) {
    Contains(p, Lower(b.title), Lower(query))
  }

  /** The date predicate: every space-separated piece of the query, lowered,
      occurs in the lowered "Month Year" rendering of the date. */
  predicate MatchesDate(p: Platform, dateString: string, query: string) {
    var formatted := Lower(p.formatDate(dateString, MonthYear));
    var pieces := Split(query);
    forall k :: 0 <= k < |pieces| ==> Contains(p, formatted, Lower(pieces[k]))
  }

  /** The date predicate splits the query and lowers each piece; that is the
      same as splitting the lowered query, so a date matches exactly when
      every piece of the lowered query occurs in the lowered "Month Year"
      rendering. */
  lemma MatchesDateSplitsLowered(p: Platform, dateString: string, query: string)
    ensures MatchesDate(p, dateString, query) <==>
      var lowered := Split(Lower(query));
      forall k :: 0 <= k < |lowered| ==> Contains(p, Lower(p.formatDate(dateString, MonthYear)), lowered[k])
  {
    SplitLower(query);
  }

  /** The closure each scope hands to `filter`. */
  predicate Keeps(p: Platform, scope: ScopeButton, query: string, b: Book) {
    match scope
    case Title => TitleMatches(p, b, query)
    case DateStarted => MatchesDate(p, b.dateStarted, query)
    case DateFinished => MatchesDate(p, b.dateFinished, query)
  }

  /** `a` is `b` with some elements left out and the rest in order. */
  predicate IsSubsequence<T(==)>(a: seq<T>, b: seq<T>)
    decreases |b|
  {
    if a == [] then true
    else if b == [] then false
    else (a[0] == b[0] && IsSubsequence(a[1..], b[1..])) || IsSubsequence(a, b[1..])
  }

  lemma {:induction false} SubsequenceReflexive<T>(s: seq<T>)
    ensures IsSubsequence(s, s)
    decreases |s|
  {
    if s != [] { SubsequenceReflexive(s[1..]); }
  }

  /** `Array.filter`: the books the scope's predicate keeps, in their order,
      each as many times as it occurs in the input. */
  function Select(p: Platform, scope: ScopeButton, query: string, s: seq<Book>): (r: seq<Book>)
    ensures IsSubsequence(r, s)
    ensures forall b :: multiset(r)[b] == if Keeps(p, scope, query, b) then multiset(s)[b] else 0
    decreases |s|
  {
    if s == [] then []
    else
      var rest := Select(p, scope, query, s[1..]);
      assert s == [s[0]] + s[1..];
      if Keeps(p, scope, query, s[0]) then
        assert ([s[0]] + rest)[1..] == rest;
        [s[0]] + rest
      else rest
  }

  /** What `filterBooks(by:selectedScopeButtonIndex:)` publishes, computed
      from the canonical list alone; `None` when it publishes nothing. */
  function Filtered(p: Platform, books: seq<Book>, query: string, index: int): (r: Option<seq<Book>>)
    ensures query == [] ==> r == Some(books)
    ensures query != [] && !(0 <= index <= 2) ==> r == None
    ensures r.Some? ==> IsSubsequence(r.value, books)
    ensures query != [] && 0 <= index <= 2 ==>
      r.Some? &&
      forall b ::
        multiset(r.value)[b] == if Keeps(p, ScopeFromRaw(index).value, query, b) then multiset(books)[b] else 0
    ensures query != [] && index == 0 ==>
      r.Some? && forall b :: b in r.value <==> b in books && Contains(p, Lower(b.title), Lower(query))
    ensures query != [] && index == 1 ==>
      r.Some? && forall b :: b in r.value <==> b in books && MatchesDate(p, b.dateStarted, query)
    ensures query != [] && index == 2 ==>
      r.Some? && forall b :: b in r.value <==> b in books && MatchesDate(p, b.dateFinished, query)
  {
    if query == [] then
      SubsequenceReflexive(books);
      Some(books)
    else
      match ScopeFromRaw(index)
      case None => None
      case Some(scope) =>
        var kept := Select(p, scope, query, books);
        assert forall b :: b in kept <==> multiset(kept)[b] > 0;
        Some(kept)
  }

  /** Lowering a query and then splitting it gives the lowered pieces. */
  lemma {:induction false} SplitLower(s: string)
    ensures |Split(Lower(s))| == |Split(s)|
    ensures forall k :: 0 <= k < |Split(s)| ==> Split(Lower(s))[k] == Lower(Split(s)[k])
    decreases |s|
  {
    if s != [] {
      var c, t := s[0], s[1..];
      assert s == [c] + t;
      SplitLower(t);
      LowerCons(c, t);
      LowerKeepsSpaces(c);
      SplitCons(c, t);
      SplitCons(LowerChar(c), Lower(t));
      if c != ' ' {
        SplitLowerStep(c, Split(t), Split(Lower(t)));
      }
    }
  }

  /** The inductive step of `SplitLower` for a leading character that is not
      a space: it joins the first piece on both sides. */
  lemma SplitLowerStep(c: char, pieces: seq<string>, lowered: seq<string>)
    requires |pieces| >= 1 && |lowered| == |pieces|
    requires forall k :: 0 <= k < |pieces| ==> lowered[k] == Lower(pieces[k])
    ensures forall k :: 0 <= k < |pieces| ==>
      ([[LowerChar(c)] + lowered[0]] + lowered[1..])[k] == Lower(([[c] + pieces[0]] + pieces[1..])[k])
  {
    LowerCons(c, pieces[0]);
  }

  /** The date filter's AND semantics for a query made of non-empty,
      space-free pieces: it matches exactly when every lowered piece occurs
      in the lowered "Month Year" rendering. */
  lemma MatchesDateOfPieces(p: Platform, dateString: string, pieces: seq<string>)
    requires |pieces| >= 1
    requires forall k :: 0 <= k < |pieces| ==> pieces[k] != [] && ' ' !in pieces[k]
    ensures MatchesDate(p, dateString, Join(pieces)) <==>
      forall k :: 0 <= k < |pieces| ==> IsSubstring(Lower(pieces[k]), Lower(p.formatDate(dateString, MonthYear)))
  {
    SplitJoin(pieces);
  }

  /** Each predicate sees the query only through its lowered form. */
  lemma KeepsIgnoresQueryCase(p: Platform, scope: ScopeButton, q1: string, q2: string, b: Book)
    requires Lower(q1) == Lower(q2)
    ensures Keeps(p, scope, q1, b) == Keeps(p, scope, q2, b)
  {
    LowerIdempotent(q1);
    LowerIdempotent(q2);
    SplitLower(q1);
    SplitLower(q2);
  }

  lemma {:induction false} SelectSameKeeps(p: Platform, scope: ScopeButton, q1: string, q2: string, s: seq<Book>)
    requires Lower(q1) == Lower(q2)
    ensures Select(p, scope, q1, s) == Select(p, scope, q2, s)
    decreases |s|
  {
    if s != [] {
      KeepsIgnoresQueryCase(p, scope, q1, q2, s[0]);
      SelectSameKeeps(p, scope, q1, q2, s[1..]);
    }
  }

  /** The filter is case-insensitive in the query: two queries that lower
      to the same string publish the same list under every scope. */
  lemma FilterIgnoresQueryCase(p: Platform, books: seq<Book>, q1: string, q2: string, index: int)
    requires Lower(q1) == Lower(q2)
    ensures Filtered(p, books, q1, index) == Filtered(p, books, q2, index)
  {
    if q1 != [] {
      assert q2 != [];
      if 0 <= index <= 2 {
        SelectSameKeeps(p, ScopeFromRaw(index).value, q1, q2, books);
      }
    }
  }

  // ---------------------------------------------------------------------
  // Sorting

  /** The field a segment sorts on. */
  function SortKey(seg: Segment, b: Book): string {
    match seg
    case Title => b.title
    case DateStarted => b.dateStarted
    case DateFinished => b.dateFinished
  }

  /** The closure each segment hands to `sorted(by:)`: title `<` for the
      title segment, date `>` for the two date segments. It is strict: books
      with the same key never precede one another. */
  predicate Precedes(seg: Segment, a: Book, b: Book)
    ensures Precedes(seg, a, b) ==> SortKey(seg, a) != SortKey(seg, b)
  {
    match seg
    case Title => Less(a.title, b.title)
    case DateStarted => Less(b.dateStarted, a.dateStarted)
    case DateFinished => Less(b.dateFinished, a.dateFinished)
  }

  /** No book is preceded by one that comes after it. */
  predicate IsSortedBy(seg: Segment, s: seq<Book>) {
    forall i, j :: 0 <= i < j < |s| ==> !Precedes(seg, s[j], s[i])
  }

  lemma PrecedesAsymmetric(seg: Segment, a: Book, b: Book)
    requires Precedes(seg, a, b)
    ensures !Precedes(seg, b, a)
  {
    match seg
    case Title =>
      if Less(b.title, a.title) { LessTransitive(a.title, b.title, a.title); }
    case DateStarted =>
      if Less(a.dateStarted, b.dateStarted) {
        LessTransitive(a.dateStarted, b.dateStarted, a.dateStarted);
      }
    case DateFinished =>
      if Less(a.dateFinished, b.dateFinished) {
        LessTransitive(a.dateFinished, b.dateFinished, a.dateFinished);
      }
  }

  /** On strings, "not `<`" chains along: it is transitive. */
  lemma {:induction false} NotLessTransitive(x: string, y: string, z: string)
    requires !Less(y, x) && !Less(z, y)
    ensures !Less(z, x)
  {
    if Less(z, x) && x != y {
      LessTotal(x, y);
      LessTransitive(z, x, y);
    }
  }

  lemma NotPrecedesTransitive(seg: Segment, a: Book, b: Book, c: Book)
    requires !Precedes(seg, b, a) && !Precedes(seg, c, b)
    ensures !Precedes(seg, c, a)
  {
    match seg
    case Title => NotLessTransitive(a.title, b.title, c.title);
    case DateStarted => NotLessTransitive(c.dateStarted, b.dateStarted, a.dateStarted);
    case DateFinished => NotLessTransitive(c.dateFinished, b.dateFinished, a.dateFinished);
  }

  /** Put `x` in front of the first book that does not strictly precede it. */
  function Insert(seg: Segment, x: Book, s: seq<Book>): (r: seq<Book>)
    requires IsSortedBy(seg, s)
    ensures multiset(r) == multiset(s) + multiset{x}
    ensures IsSortedBy(seg, r)
    decreases |s|
  {
    if s == [] || !Precedes(seg, s[0], x) then
      InsertInFront(seg, x, s);
      [x] + s
    else
      var rest := Insert(seg, x, s[1..]);
      InsertBehind(seg, x, s, rest);
      [s[0]] + rest
  }

  /** A book no later book precedes can head a sorted list. */
  lemma ConsSorted(seg: Segment, h: Book, t: seq<Book>)
    requires IsSortedBy(seg, t)
    requires forall j :: 0 <= j < |t| ==> !Precedes(seg, t[j], h)
    ensures IsSortedBy(seg, [h] + t)
  {
    var r := [h] + t;
    forall i, j | 0 <= i < j < |r| ensures !Precedes(seg, r[j], r[i]) {
      assert r[j] == t[j - 1];
      if i > 0 { assert r[i] == t[i - 1]; }
    }
  }

  /** `x` goes first when the head of the list does not precede it. */
  lemma InsertInFront(seg: Segment, x: Book, s: seq<Book>)
    requires IsSortedBy(seg, s) && (s == [] || !Precedes(seg, s[0], x))
    ensures IsSortedBy(seg, [x] + s)
  {
    forall j | 0 <= j < |s| ensures !Precedes(seg, s[j], x) {
      if j > 0 { NotPrecedesTransitive(seg, x, s[0], s[j]); }
    }
    ConsSorted(seg, x, s);
  }

  /** Otherwise the head stays first, ahead of `x` inserted into the tail. */
  lemma InsertBehind(seg: Segment, x: Book, s: seq<Book>, rest: seq<Book>)
    requires IsSortedBy(seg, s) && s != [] && Precedes(seg, s[0], x)
    requires multiset(rest) == multiset(s[1..]) + multiset{x} && IsSortedBy(seg, rest)
    ensures multiset([s[0]] + rest) == multiset(s) + multiset{x}
    ensures IsSortedBy(seg, [s[0]] + rest)
  {
    assert s == [s[0]] + s[1..];
    PrecedesAsymmetric(seg, s[0], x);
    forall j | 0 <= j < |rest| ensures !Precedes(seg, rest[j], s[0]) {
      assert rest[j] in multiset(rest);
      if rest[j] != x {
        assert rest[j] in s[1..];
      }
    }
    ConsSorted(seg, s[0], rest);
  }

  /** `sorted(by:)` of a segment's comparator: a rearrangement of the input
      with no book preceded by a later one. */
  function SortBy(seg: Segment, s: seq<Book>): (r: seq<Book>)
    ensures multiset(r) == multiset(s)
    ensures IsSortedBy(seg, r)
    decreases |s|
  {
    if s == [] then []
    else
      assert s == [s[0]] + s[1..];
      Insert(seg, s[0], SortBy(seg, s[1..]))
  }

  /** Sorted by title means titles ascend. */
  lemma SortedByTitleAscends(s: seq<Book>, i: int, j: int)
    requires IsSortedBy(Segment.Title, s) && 0 <= i < j < |s|
    ensures s[i].title == s[j].title || Less(s[i].title, s[j].title)
  {
    if s[i].title != s[j].title { LessTotal(s[i].title, s[j].title); }
  }

  /** Sorted by a date segment means that date descends. */
  lemma SortedByDateDescends(seg: Segment, s: seq<Book>, i: int, j: int)
    requires seg != Segment.Title && IsSortedBy(seg, s) && 0 <= i < j < |s|
    ensures seg == Segment.DateStarted ==>
      s[i].dateStarted == s[j].dateStarted || Less(s[j].dateStarted, s[i].dateStarted)
    ensures seg == Segment.DateFinished ==>
      s[i].dateFinished == s[j].dateFinished || Less(s[j].dateFinished, s[i].dateFinished)
  {
    if s[i].dateStarted != s[j].dateStarted { LessTotal(s[i].dateStarted, s[j].dateStarted); }
    if s[i].dateFinished != s[j].dateFinished { LessTotal(s[i].dateFinished, s[j].dateFinished); }
  }

  /** Sorting a list already sorted by the same segment leaves it as it is. */
  lemma {:induction false} SortIdempotent(seg: Segment, s: seq<Book>)
    requires IsSortedBy(seg, s)
    ensures SortBy(seg, s) == s
    decreases |s|
  {
    if s != [] {
      assert IsSortedBy(seg, s[1..]);
      SortIdempotent(seg, s[1..]);
      assert s == [s[0]] + s[1..];
    }
  }

  /** Sorting what a filter published brings back nothing the filter
      removed: every book shown is a canonical book the filter keeps. */
  lemma SortAfterFilter(p: Platform, books: seq<Book>, query: string, index: int, seg: Segment)
    requires query != [] && 0 <= index <= 2
    ensures forall b :: b in SortBy(seg, Filtered(p, books, query, index).value) ==>
      b in books && Keeps(p, ScopeFromRaw(index).value, query, b)
  {
    var shown := Filtered(p, books, query, index).value;
    forall b | b in SortBy(seg, shown)
      ensures b in books && Keeps(p, ScopeFromRaw(index).value, query, b)
    {
      assert b in multiset(SortBy(seg, shown));
      assert b in shown;
    }
  }

  /** Books neither of which precedes the other have the same key. */
  lemma NeitherPrecedesSameKey(seg: Segment, a: Book, b: Book)
    requires !Precedes(seg, a, b) && !Precedes(seg, b, a)
    ensures SortKey(seg, a) == SortKey(seg, b)
  {
    if SortKey(seg, a) != SortKey(seg, b) {
      LessTotal(SortKey(seg, a), SortKey(seg, b));
    }
  }

  /** Leaving one book out of a sorted list keeps it sorted. */
  lemma SortedWithout(seg: Segment, t: seq<Book>, m: int)
    requires IsSortedBy(seg, t) && 0 <= m < |t|
    ensures IsSortedBy(seg, t[..m] + t[m + 1..])
  {
    var u := t[..m] + t[m + 1..];
    forall i, j | 0 <= i < j < |u| ensures !Precedes(seg, u[j], u[i]) {
      var i' := if i < m then i else i + 1;
      var j' := if j < m then j else j + 1;
      assert u[i] == t[i'] && u[j] == t[j'];
    }
  }

  /** In a sorted list whose first and `m`-th books share a key, every book
      up to the `m`-th has that key. */
  lemma SortedRunSameKey(seg: Segment, t: seq<Book>, m: int)
    requires IsSortedBy(seg, t) && 0 <= m < |t| && SortKey(seg, t[0]) == SortKey(seg, t[m])
    ensures forall k :: 0 <= k <= m ==> SortKey(seg, t[k]) == SortKey(seg, t[m])
  {
    forall k | 0 <= k <= m ensures SortKey(seg, t[k]) == SortKey(seg, t[m]) {
      if 0 < k < m {
        assert !Precedes(seg, t[k], t[0]) && !Precedes(seg, t[m], t[k]);
        NeitherPrecedesSameKey(seg, t[0], t[k]);
      }
    }
  }

  /** Leaving out the `m`-th element takes one copy of it from the multiset. */
  lemma MultisetWithout(t: seq<Book>, m: int)
    requires 0 <= m < |t|
    ensures multiset(t) == multiset(t[..m] + t[m + 1..]) + multiset{t[m]}
  {
    assert t == t[..m] + [t[m]] + t[m + 1..];
  }

  /** Take `s`'s first book out of `t`: what remains of both holds the same
      books. */
  lemma RemoveFirstOf(s: seq<Book>, t: seq<Book>) returns (m: int, rest: seq<Book>)
    requires multiset(s) == multiset(t) && s != []
    ensures 0 <= m < |t| && t[m] == s[0] && rest == t[..m] + t[m + 1..]
    ensures multiset(s[1..]) == multiset(rest)
  {
    m := IndexOf(t, s[0]);
    rest := t[..m] + t[m + 1..];
    MultisetWithout(t, m);
    MultisetOfTail(s);
    MultisetCancel(multiset(s[1..]), multiset(rest), s[0]);
  }

  lemma MultisetOfTail(s: seq<Book>)
    requires s != []
    ensures multiset(s) == multiset(s[1..]) + multiset{s[0]}
  {
    assert s == [s[0]] + s[1..];
  }

  lemma MultisetCancel(a: multiset<Book>, b: multiset<Book>, x: Book)
    requires a + multiset{x} == b + multiset{x}
    ensures a == b
  {
    assert a == a + multiset{x} - multiset{x};
  }

  /** Where a book of the multiset sits in the list. */
  lemma IndexOf(t: seq<Book>, x: Book) returns (m: int)
    requires x in multiset(t)
    ensures 0 <= m < |t| && t[m] == x
  {
    assert x in t;
    m :| 0 <= m < |t| && t[m] == x;
  }

  /** Without their first and `m`-th books, two sorted lists stay sorted. */
  lemma SortedRests(seg: Segment, s: seq<Book>, t: seq<Book>, m: int)
    requires IsSortedBy(seg, s) && IsSortedBy(seg, t) && s != [] && 0 <= m < |t|
    ensures IsSortedBy(seg, s[1..]) && IsSortedBy(seg, t[..m] + t[m + 1..])
  {
    SortedWithout(seg, t, m);
    SortedWithout(seg, s, 0);
    assert s[..0] + s[1..] == s[1..];
  }

  /** Two sorted rearrangements of the same books start with the same key. */
  lemma SortedFirstKeysAgree(seg: Segment, s: seq<Book>, t: seq<Book>)
    requires multiset(s) == multiset(t) && IsSortedBy(seg, s) && IsSortedBy(seg, t)
    requires s != [] && t != []
    ensures SortKey(seg, s[0]) == SortKey(seg, t[0])
  {
    assert t[0] in multiset(s) && s[0] in multiset(t);
    var j :| 0 <= j < |s| && s[j] == t[0];
    var m :| 0 <= m < |t| && t[m] == s[0];
    assert !Precedes(seg, t[0], s[0]) by {
      if j > 0 { assert !Precedes(seg, s[j], s[0]); }
    }
    assert !Precedes(seg, s[0], t[0]) by {
      if m > 0 { assert !Precedes(seg, t[m], t[0]); }
    }
    NeitherPrecedesSameKey(seg, t[0], s[0]);
  }

  /** The inductive step: if the rest of `s` agrees key by key with `t`
      less its `m`-th book, which is `s[0]`, then `s` agrees with `t`. */
  lemma AgreeAfterRemoval(seg: Segment, s: seq<Book>, t: seq<Book>, m: int)
    requires IsSortedBy(seg, t) && |s| == |t| && 0 <= m < |t| && t[m] == s[0]
    requires SortKey(seg, t[0]) == SortKey(seg, s[0])
    requires forall i :: 0 <= i < |s| - 1 ==>
      SortKey(seg, s[1..][i]) == SortKey(seg, (t[..m] + t[m + 1..])[i])
    ensures forall i :: 0 <= i < |s| ==> SortKey(seg, s[i]) == SortKey(seg, t[i])
  {
    var rest := t[..m] + t[m + 1..];
    SortedRunSameKey(seg, t, m);
    forall i | 0 < i < |s| ensures SortKey(seg, s[i]) == SortKey(seg, t[i]) {
      assert s[i] == s[1..][i - 1];
      if i <= m {
        assert rest[i - 1] == t[i - 1];
      } else {
        assert rest[i - 1] == t[i];
      }
    }
  }

  /** Whatever order `sorted(by:)` gives books with equal keys, the sorted
      arrangement of a list is determined key by key: two sorted
      rearrangements of the same books agree on every position's key. */
  lemma {:induction false} SortedPermutationsAgreeOnKeys(seg: Segment, s: seq<Book>, t: seq<Book>)
    requires multiset(s) == multiset(t) && IsSortedBy(seg, s) && IsSortedBy(seg, t)
    ensures |s| == |t|
    ensures forall i :: 0 <= i < |s| ==> SortKey(seg, s[i]) == SortKey(seg, t[i])
    decreases |s|
  {
    assert |s| == |multiset(s)| == |multiset(t)| == |t|;
    if s != [] {
      var m, rest := RemoveFirstOf(s, t);
      SortedRests(seg, s, t, m);
      SortedPermutationsAgreeOnKeys(seg, s[1..], rest);
      SortedFirstKeysAgree(seg, s, t);
      AgreeAfterRemoval(seg, s, t, m);
    }
  }

  /** Two books, one strictly before the other: sorting leaves only one
      possible order. */
  lemma SortedPairUnique(seg: Segment, s: seq<Book>, a: Book, b: Book)
    requires multiset(s) == multiset([a, b]) && IsSortedBy(seg, s) && Precedes(seg, a, b)
    ensures s == [a, b]
  {
    PrecedesAsymmetric(seg, a, b);
    assert |s| == |multiset(s)| == 2;
    assert s == [s[0], s[1]];
    assert multiset(s) == multiset{s[0], s[1]};
    assert !Precedes(seg, s[1], s[0]);
  }
}
