/**
  The live catalog (Lib1/Lib1/c.swift, with the `Book` record of Lib1/Lib1/books.swift):
  `CatalogViewModel` fills `books` from a snapshot of the remote "books"
  collection and derives `filteredBooks` from four independent filters and a
  title sort.
 */
module Catalog {

  import opened Wrappers
  import opened Text
  import opened Sequences

  /** `Book` of books.swift; `publicationDate` is a point in time, here an integer. */
  datatype Book = Book(
    id: Option<string>,
    title: string,
    author: string,
    genre: string,
    publicationDate: int,
    isAvailable: bool)

  datatype AvailabilityFilter = All | Available | OnLoan

  /** `ClosedRange<Date>`: both bounds included. */
  datatype DateRange = DateRange(lowerBound: int, upperBound: int)

  /**
    What the snapshot listener receives: an error, or a snapshot whose documents
    each decode to a book or fail to (`None`); a missing snapshot is `Snapshot(None)`.
   */
  datatype SnapshotEvent =
    | ListenerError(description: string)
    | Snapshot(documents: Option<seq<Option<Book>>>)

  /** `try? document.data(as: Book.self)`: a document's book, if it decoded. */
  function Decode(document: Option<Book>): Option<Book>
  {
    document
  }

  /** Each book is loaded as many times as a document decodes to it. */
  lemma {:induction false} DecodedCounts(docs: seq<Option<Book>>)
    ensures forall b :: multiset(CompactMap(docs, Decode))[b] == multiset(docs)[Some(b)]
    decreases |docs|
  {
    if docs != [] {
      var front, last := docs[..|docs| - 1], docs[|docs| - 1];
      assert docs == front + [last];
      CompactMapLast(docs, Decode);
      DecodedCounts(front);
    }
  }

  const NoBooksMessage := "No books found in the catalog."
  const SignInMessage := "Please sign in to view the catalog."

  /**
    The `books` and `errorMessage` a snapshot leaves behind: one book per document
    that decoded, in document order, and the "no books" message exactly when there
    are none.
   */
  function Loaded(documents: Option<seq<Option<Book>>>): (r: (seq<Book>, Option<string>))
    ensures r.1.Some? <==> r.0 == []
    ensures r.1.Some? ==> r.1.value == NoBooksMessage
    ensures documents.None? ==> r.0 == []
    ensures documents.Some? ==> forall b :: b in r.0 <==> Some(b) in documents.value
    ensures documents.Some? ==> |r.0| == |Filter(documents.value, (d: Option<Book>) => d.Some?)|
    ensures documents.Some? ==> forall b :: multiset(r.0)[b] == multiset(documents.value)[Some(b)]
  {
    if documents.None? then ([], Some(NoBooksMessage))
    else
      var docs := documents.value;
      var books := CompactMap(docs, Decode);
      CompactMapMembers(docs, Decode);
      CompactMapCount(docs, Decode);
      DecodedCounts(docs);
      FilterSameTest(docs, Yields(Decode), (d: Option<Book>) => d.Some?);
      (books, if books == [] then Some(NoBooksMessage) else None)
  }

  // ---------------------------------------------------------------------------
  // `filteredBooks` (c.swift:64-93)

  predicate MatchesSearch(book: Book, searchText: string)
  {
    searchText == []
    || Contains(Lower(book.title), Lower(searchText))
    || Contains(Lower(book.author), Lower(searchText))
  }

  predicate MatchesGenre(book: Book, selectedGenre: Option<string>)
  {
    selectedGenre.None? || Some(book.genre) == selectedGenre
  }

  predicate MatchesAvailability(book: Book, filter: AvailabilityFilter)
  {
    match filter
    case All => true
    case Available => book.isAvailable
    case OnLoan => !book.isAvailable
  }

  predicate MatchesDate(book: Book, range: Option<DateRange>)
  {
    range.None? || (range.value.lowerBound <= book.publicationDate <= range.value.upperBound)
  }

  /** The filter criteria, the view model's four published inputs. */
  datatype Criteria = Criteria(
    searchText: string,
    selectedGenre: Option<string>,
    selectedAvailability: AvailabilityFilter,
    publicationDateRange: Option<DateRange>)

  const NoCriteria := Criteria("", None, All, None)

  predicate Matches(book: Book, c: Criteria)
  {
    && MatchesSearch(book, c.searchText)
    && MatchesGenre(book, c.selectedGenre)
    && MatchesAvailability(book, c.selectedAvailability)
    && MatchesDate(book, c.publicationDateRange)
  }

  /** `$0.title < $1.title`: case-sensitive order on titles. */
  function TitleBefore(): (Book, Book) -> bool
  {
    (a: Book, b: Book) => LexLess(a.title, b.title)
  }

  function FilteredBooks(books: seq<Book>, c: Criteria): seq<Book>
  {
    SortBy(Filter(books, (b: Book) => Matches(b, c)), TitleBefore())
  }

  lemma TitleBeforeIsStrictWeakOrder()
    ensures StrictWeakOrder(TitleBefore())
  {
    forall a: Book, b: Book, c: Book
      ensures LexLess(a.title, b.title) ==> !LexLess(b.title, a.title)
      ensures !LexLess(b.title, a.title) && !LexLess(c.title, b.title) ==> !LexLess(c.title, a.title)
    {
      LexLessIsStrictWeakOrder(a.title, b.title, c.title);
    }
  }

  /**
    A book is shown exactly when it passes all four filters, each as many times
    as it occurs in `books`, and the list is in ascending (case-sensitive) title order;
    books with equal titles keep the order they had after filtering.
   */
  lemma FilteredBooksSpec(books: seq<Book>, c: Criteria)
    ensures var r := FilteredBooks(books, c);
            forall b :: b in r <==>
              && b in books
              && (c.searchText == [] || Contains(Lower(b.title), Lower(c.searchText)) || Contains(Lower(b.author), Lower(c.searchText)))
              && (c.selectedGenre.None? || c.selectedGenre == Some(b.genre))
              && (c.selectedAvailability == Available ==> b.isAvailable)
              && (c.selectedAvailability == OnLoan ==> !b.isAvailable)
              && (c.publicationDateRange.Some? ==>
                    c.publicationDateRange.value.lowerBound <= b.publicationDate <= c.publicationDateRange.value.upperBound)
    ensures var r := FilteredBooks(books, c);
            forall b :: multiset(r)[b] == if Matches(b, c) then multiset(books)[b] else 0
    ensures var r := FilteredBooks(books, c);
            forall i, j :: 0 <= i < j < |r| ==> !LexLess(r[j].title, r[i].title)
    ensures forall y :: Filter(FilteredBooks(books, c), Tied(TitleBefore(), y)) ==
                        Filter(Filter(books, (b: Book) => Matches(b, c)), Tied(TitleBefore(), y))
  {
    FilteredMembership(books, c);
    FilteredCount(books, c);
    FilteredBooksSorted(books, c);
    FilteredBooksStable(books, c);
  }

  lemma FilteredBooksStable(books: seq<Book>, c: Criteria)
    ensures forall y :: Filter(FilteredBooks(books, c), Tied(TitleBefore(), y)) ==
                        Filter(Filter(books, (b: Book) => Matches(b, c)), Tied(TitleBefore(), y))
  {
    TitleBeforeIsStrictWeakOrder();
    forall y
      ensures Filter(FilteredBooks(books, c), Tied(TitleBefore(), y)) ==
              Filter(Filter(books, (b: Book) => Matches(b, c)), Tied(TitleBefore(), y))
    {
      SortByStable(Filter(books, (b: Book) => Matches(b, c)), TitleBefore(), y);
    }
  }

  lemma FilteredMembership(books: seq<Book>, c: Criteria)
    ensures forall b :: b in FilteredBooks(books, c) <==> b in books && Matches(b, c)
  {
    var r := FilteredBooks(books, c);
    FilteredCount(books, c);
    forall b
      ensures b in r <==> b in books && Matches(b, c)
    {
      assert b in r <==> multiset(r)[b] > 0;
      assert b in books <==> multiset(books)[b] > 0;
    }
  }

  lemma FilteredBooksSorted(books: seq<Book>, c: Criteria)
    ensures var r := FilteredBooks(books, c);
            forall i, j :: 0 <= i < j < |r| ==> !LexLess(r[j].title, r[i].title)
  {
    TitleBeforeIsStrictWeakOrder();
    SortBySorted(Filter(books, (b: Book) => Matches(b, c)), TitleBefore());
  }

  /** With no criteria set, every book is shown: the list is a reordering of `books`. */
  lemma NoCriteriaShowsEverything(books: seq<Book>)
    ensures multiset(FilteredBooks(books, NoCriteria)) == multiset(books)
  {
    FilterKeepsAll(books, (b: Book) => Matches(b, NoCriteria));
  }

  /**
    "Available" and "On Loan" split what "All" shows: together they show each book
    exactly as often as "All" does, and no book under both.
   */
  lemma AvailabilityPartitions(books: seq<Book>, c: Criteria)
    ensures var all := FilteredBooks(books, c.(selectedAvailability := All));
            var available := FilteredBooks(books, c.(selectedAvailability := Available));
            var onLoan := FilteredBooks(books, c.(selectedAvailability := OnLoan));
            && multiset(available) + multiset(onLoan) == multiset(all)
            && multiset(available) * multiset(onLoan) == multiset{}
  {
    var all := FilteredBooks(books, c.(selectedAvailability := All));
    var available := FilteredBooks(books, c.(selectedAvailability := Available));
    var onLoan := FilteredBooks(books, c.(selectedAvailability := OnLoan));
    forall b
      ensures multiset(available)[b] + multiset(onLoan)[b] == multiset(all)[b]
      ensures multiset(available)[b] == 0 || multiset(onLoan)[b] == 0
    {
      PartitionCounts(books, c, b);
    }
    DisjointSum(multiset(available), multiset(onLoan), multiset(all));
  }

  /** Two multisets whose counts add up to a third's, and never overlap, are a disjoint split of it. */
  lemma DisjointSum<T>(a: multiset<T>, b: multiset<T>, sum: multiset<T>)
    requires forall x :: a[x] + b[x] == sum[x]
    requires forall x :: a[x] == 0 || b[x] == 0
    ensures a + b == sum && a * b == multiset{}
  {
    assert forall x :: (a + b)[x] == sum[x];
    assert forall x :: (a * b)[x] == 0;
  }

  lemma PartitionCounts(books: seq<Book>, c: Criteria, b: Book)
    ensures var all := multiset(FilteredBooks(books, c.(selectedAvailability := All)));
            var available := multiset(FilteredBooks(books, c.(selectedAvailability := Available)));
            var onLoan := multiset(FilteredBooks(books, c.(selectedAvailability := OnLoan)));
            && available[b] + onLoan[b] == all[b]
            && (available[b] == 0 || onLoan[b] == 0)
  {
    var cAll := c.(selectedAvailability := All);
    var cAvailable := c.(selectedAvailability := Available);
    var cOnLoan := c.(selectedAvailability := OnLoan);
    FilteredCount(books, cAll);
    FilteredCount(books, cAvailable);
    FilteredCount(books, cOnLoan);
    assert Matches(b, cAvailable) == (Matches(b, cAll) && b.isAvailable);
    assert Matches(b, cOnLoan) == (Matches(b, cAll) && !b.isAvailable);
  }

  lemma FilteredCount(books: seq<Book>, c: Criteria)
    ensures forall b :: multiset(FilteredBooks(books, c))[b] == if Matches(b, c) then multiset(books)[b] else 0
  {
  }

  // ---------------------------------------------------------------------------
  // The view model

  class CatalogViewModel {
    var books: seq<Book>
    var searchText: string
    var selectedGenre: Option<string>
    var selectedAvailability: AvailabilityFilter
    var publicationDateRange: Option<DateRange>
    var errorMessage: Option<string>

    /** The stored properties' initial values, before `init` starts the fetch. */
    constructor ()
      ensures books == [] && errorMessage.None?
      ensures Criteria(searchText, selectedGenre, selectedAvailability, publicationDateRange) == NoCriteria
    {
      books := [];
      searchText := "";
      selectedGenre := None;
      selectedAvailability := All;
      publicationDateRange := None;
      errorMessage := None;
    }

    function CurrentCriteria(): Criteria
      reads this
    {
      Criteria(searchText, selectedGenre, selectedAvailability, publicationDateRange)
    }

    /** `filteredBooks`, computed from the current state. */
    function Filtered(): seq<Book>
      reads this
    {
      FilteredBooks(books, CurrentCriteria())
    }

    /**
      `fetchBooks()` with the listener's delivery in hand: signed out, only the
      sign-in message is set; a listener error keeps the books and reports the
      failure; a snapshot replaces the books and sets the "no books" message
      exactly when none decoded.
     */
    method FetchBooks(signedIn: bool, event: SnapshotEvent)
      modifies this`books, this`errorMessage
      ensures !signedIn ==> books == old(books) && errorMessage == Some(SignInMessage)
      ensures signedIn && event.ListenerError? ==>
                books == old(books) && errorMessage == Some("Failed to load catalog: " + event.description)
      ensures signedIn && event.Snapshot? ==>
                (books, errorMessage) == Loaded(event.documents)
                && (errorMessage.Some? <==> books == [])
    {
      if !signedIn {
        errorMessage := Some(SignInMessage);
        return;
      }
      match event
      case ListenerError(description) =>
        errorMessage := Some("Failed to load catalog: " + description);
      case Snapshot(documents) =>
        books := if documents.Some? then CompactMap(documents.value, Decode) else [];
        errorMessage := if books == [] then Some(NoBooksMessage) else None;
    }
  }
}
