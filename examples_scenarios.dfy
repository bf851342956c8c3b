/** Worked examples of the book list's filter and sort rules, and a client
    of the view model that follows one screen session. */
module BookListExamples {
  import opened Text
  import opened BookList
  import opened ViewModel

  lemma LowerTitleExample()
    ensures Lower("Harry Potter") == "harry potter" && Lower("potter") == "potter"
  {
  }

  lemma SubstringTitleExample()
    ensures IsSubstring("potter", "harry potter")
  {
    SubstringOfConcat("harry ", "potter", "");
  }

  /** A title search for "potter" finds "Harry Potter". */
  lemma TitleSearchExample(p: Platform, b: Book, query: string)
    requires b.title == "Harry Potter" && query == "potter"
    ensures TitleMatches(p, b, query)
  {
    LowerTitleExample();
    SubstringTitleExample();
  }

  lemma LowerDateExample()
    ensures Lower("April 2019") == "april 2019"
    ensures Lower("2019") == "2019" && Lower("april") == "april"
  {
  }

  lemma LowerMay()
    ensures Lower("may") == "may"
  {
  }

  lemma SubstringDateExample()
    ensures IsSubstring("2019", "april 2019") && IsSubstring("april", "april 2019")
  {
    SubstringOfConcat("april ", "2019", "");
    SubstringOfConcat("", "april", " 2019");
  }

  /** Two pieces joined are the first, a space, and the second. */
  lemma TwoPieces(a: string, b: string)
    ensures Join([a, b]) == a + [' '] + b
  {
    assert [a, b][1..] == [b];
  }

  /** When the formatter renders "2019-04-15" as "April 2019", the query
      "2019 april" matches that date. */
  lemma DateSearchMatches(p: Platform, date: string, query: string)
    requires date == "2019-04-15" && query == "2019 april"
    requires p.formatDate(date, MonthYear) == "April 2019"
    ensures MatchesDate(p, date, query)
  {
    var pieces := ["2019", "april"];
    TwoPieces(pieces[0], pieces[1]);
    assert pieces[0] + [' '] + pieces[1] == query;
    assert ' ' !in pieces[0] && ' ' !in pieces[1];
    var formatted := p.formatDate(date, MonthYear);
    AprilPiecesFound(formatted, pieces);
    MatchesDateOfPieces(p, date, pieces);
  }

  lemma AprilPiecesFound(formatted: string, pieces: seq<string>)
    requires formatted == "April 2019" && pieces == ["2019", "april"]
    ensures forall k :: 0 <= k < |pieces| ==> IsSubstring(Lower(pieces[k]), Lower(formatted))
  {
    LowerDateExample();
    SubstringDateExample();
    forall k | 0 <= k < |pieces| ensures IsSubstring(Lower(pieces[k]), Lower(formatted)) {
      if k == 0 {
        assert Lower(pieces[0]) == "2019";
      } else {
        assert Lower(pieces[1]) == "april";
      }
    }
  }

  /** Under the same rendering the query "2019 may" does not match: no
      "m" occurs in "april 2019". */
  lemma DateSearchRejects(p: Platform, date: string, query: string)
    requires date == "2019-04-15" && query == "2019 may"
    requires p.formatDate(date, MonthYear) == "April 2019"
    ensures !MatchesDate(p, date, query)
  {
    var pieces := ["2019", "may"];
    TwoPieces(pieces[0], pieces[1]);
    assert pieces[0] + [' '] + pieces[1] == query;
    assert ' ' !in pieces[0] && ' ' !in pieces[1];
    var formatted := p.formatDate(date, MonthYear);
    MayPieceMissing(formatted, pieces);
    MatchesDateOfPieces(p, date, pieces);
  }

  lemma MayPieceMissing(formatted: string, pieces: seq<string>)
    requires formatted == "April 2019" && pieces == ["2019", "may"]
    ensures !IsSubstring(Lower(pieces[1]), Lower(formatted))
  {
    var may, april := Lower(pieces[1]), Lower(formatted);
    assert may == "may" by { LowerMay(); }
    assert april == "april 2019" by { LowerDateExample(); }
    MayNotInApril(may, april);
  }

  lemma MayNotInApril(may: string, april: string)
    requires may == "may" && april == "april 2019"
    ensures !IsSubstring(may, april)
  {
    assert may[0] == 'm' && 'm' !in april;
    MissingCharacterNotSubstring(may, april, 'm');
  }

  /** "Apple" comes before "Zebra" by title. */
  lemma TitleOrderExample(apple: Book, zebra: Book)
    requires apple.title == "Apple" && zebra.title == "Zebra"
    ensures Precedes(Segment.Title, apple, zebra)
  {
    assert apple.title[0] < zebra.title[0];
  }

  /** A book started in 2019 comes before one started in 2018. */
  lemma StartOrderExample(older: Book, newer: Book)
    requires older.dateStarted == "2018-05" && newer.dateStarted == "2019-01"
    ensures Precedes(Segment.DateStarted, newer, older)
  {
    var o, n := older.dateStarted, newer.dateStarted;
    assert o[3] < n[3];
    assert Less(o[3..], n[3..]);
    assert o[2..][1..] == o[3..] && n[2..][1..] == n[3..];
    assert Less(o[2..], n[2..]);
    assert o[1..][1..] == o[2..] && n[1..][1..] == n[2..];
    assert Less(o[1..], n[1..]);
  }

  /** Two books loaded and shown unfiltered in fetch order, then sorted by
      title (ascending), then by start date (descending); an index naming no
      segment leaves the order alone. */
  method SortSession(p: Platform)
  {
    var zebra := Book("Zebra", "2019-01", "2019-02");
    var apple := Book("Apple", "2018-05", "2018-06");
    var vm := new BooksViewModel(p);
    vm.LoadCompleted(Delivered([zebra, apple]));
    vm.FilterBooks("", ScopeRawValue(ScopeButton.Title));
    assert vm.visible == [zebra, apple];

    vm.SortBooks(SegmentRawValue(Segment.Title));
    TitleOrderExample(apple, zebra);
    assert multiset([zebra, apple]) == multiset([apple, zebra]);
    SortedPairUnique(Segment.Title, vm.visible, apple, zebra);
    assert vm.visible == [apple, zebra];

    vm.SortBooks(SegmentRawValue(Segment.DateStarted));
    StartOrderExample(apple, zebra);
    SortedPairUnique(Segment.DateStarted, vm.visible, zebra, apple);
    assert vm.visible == [zebra, apple];

    vm.SortBooks(7);
    assert vm.visible == [zebra, apple];
  }

  /** After a load, a failed refresh changes nothing and a delivered one
      replaces both lists and is saved once. */
  method RefreshSession(p: Platform)
  {
    var zebra := Book("Zebra", "2019-01", "2019-02");
    var apple := Book("Apple", "2018-05", "2018-06");
    var vm := new BooksViewModel(p);
    vm.LoadCompleted(Delivered([zebra, apple]));
    vm.RefreshCompleted(Failed);
    assert vm.books == [zebra, apple] && vm.visible == [zebra, apple] && vm.saved == [];
    vm.RefreshCompleted(Delivered([apple]));
    assert vm.books == [apple] && vm.visible == [apple] && vm.saved == [[apple]];
  }
}
