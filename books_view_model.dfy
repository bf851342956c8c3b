/** The books screen's view model: the canonical list of books fetched from
    the repository, the visible list it publishes to the screen, and the
    operations that load, refresh, filter and sort them. */
module ViewModel {
  import opened Text
  import opened BookList

  /** How a fetch from the repository ends: with the fetched list, or with an
      error on which the subscription's `onNext` never runs. */
  datatype FetchOutcome = Delivered(books: seq<Book>) | Failed

  class BooksViewModel {
    /** The date formatter and string services the filter relies on. */
    const platform: Platform

    /** The canonical list: the books of the most recent completed fetch. */
    var books: seq<Book>

    /** The value of the published relay: what the screen shows. */
    var visible: seq<Book>

    /** Every list handed to the repository's `save`, oldest first. */
    ghost var saved: seq<seq<Book>>

    /** Both lists start empty and nothing has been saved. */
    constructor (platform: Platform)
      ensures this.platform == platform
      ensures books == [] && visible == [] && saved == []
    {
      this.platform := platform;
      books := [];
      visible := [];
      saved := [];
    }

    /** The completion of `loadBooks`: a delivered list becomes both the
        canonical and the visible list; a failed fetch changes nothing. */
    method LoadCompleted(outcome: FetchOutcome)
      modifies this`books, this`visible
      ensures outcome.Delivered? ==> books == outcome.books && visible == outcome.books
      ensures outcome.Failed? ==> books == old(books) && visible == old(visible)
      ensures saved == old(saved)
    {
      if outcome.Delivered? {
        books := outcome.books;
        visible := outcome.books;
      }
    }

    /** The completion of `refreshBooks`: as for a load, and the delivered
        list is also saved, once; a failed fetch changes and saves nothing. */
    method RefreshCompleted(outcome: FetchOutcome)
      modifies this`books, this`visible, this`saved
      ensures outcome.Delivered? ==>
        books == outcome.books && visible == outcome.books && saved == old(saved) + [outcome.books]
      ensures outcome.Failed? ==>
        books == old(books) && visible == old(visible) && saved == old(saved)
    {
      if outcome.Delivered? {
        books := outcome.books;
        visible := outcome.books;
        saved := saved + [outcome.books];
      }
    }

    /** `filterBooks(by:selectedScopeButtonIndex:)`: publishes the filter of
        the canonical list, or nothing for a non-empty query and an index
        that names no scope. The canonical list is left alone. */
    method FilterBooks(query: string, scopeIndex: int)
      modifies this`visible
      ensures books == old(books)
      ensures Filtered(platform, books, query, scopeIndex).Some? ==>
        visible == Filtered(platform, books, query, scopeIndex).value
      ensures Filtered(platform, books, query, scopeIndex).None? ==> visible == old(visible)
    {
      if query == [] {
        visible := books;
      } else if scopeIndex == ScopeRawValue(ScopeButton.Title) {
        visible := Select(platform, ScopeButton.Title, query, books);
      } else if scopeIndex == ScopeRawValue(ScopeButton.DateStarted) {
        visible := Select(platform, ScopeButton.DateStarted, query, books);
      } else if scopeIndex == ScopeRawValue(ScopeButton.DateFinished) {
        visible := Select(platform, ScopeButton.DateFinished, query, books);
      }
    }

    /** `sortBooks(by:)`: rearranges the visible list, not the canonical one,
        by the segment's comparator; an index naming no segment is a no-op. */
    method SortBooks(segmentIndex: int)
      modifies this`visible
      ensures books == old(books)
      ensures SegmentFromRaw(segmentIndex).None? ==> visible == old(visible)
      ensures SegmentFromRaw(segmentIndex).Some? ==>
        multiset(visible) == multiset(old(visible)) &&
        IsSortedBy(SegmentFromRaw(segmentIndex).value, visible)
      ensures SegmentFromRaw(segmentIndex).Some? && IsSortedBy(SegmentFromRaw(segmentIndex).value, old(visible)) ==>
        |visible| == |old(visible)| &&
        forall i :: 0 <= i < |visible| ==>
          SortKey(SegmentFromRaw(segmentIndex).value, visible[i]) ==
          SortKey(SegmentFromRaw(segmentIndex).value, old(visible)[i])
    {
      var segment := SegmentFromRaw(segmentIndex);
      if segment.None? {
        return;
      }
      ghost var before := visible;
      visible := SortBy(segment.value, visible);
      if IsSortedBy(segment.value, before) {
        SortedPermutationsAgreeOnKeys(segment.value, visible, before);
      }
    }

    /** The private date matcher `filterBooks(for:with:)`: formats and lowers
        the date, then folds `&&` over the query's space-separated pieces. */
    method MatchDate(dateString: string, query: string) returns (result: bool)
      ensures result == MatchesDate(platform, dateString, query)
    {
      var formatted := Lower(platform.formatDate(dateString, MonthYear));
      var elements := Split(query);
      result := true;
      for i := 0 to |elements|
        invariant result == forall k :: 0 <= k < i ==> Contains(platform, formatted, Lower(elements[k]))
      {
        result := result && Contains(platform, formatted, Lower(elements[i]));
      }
    }
  }
}
