/**
  The local book store and the reserve / wishlist actions (Lib1/Lib1/BooksView.swift):
  `LibraryModel` keeps the catalog in memory, changes one book at a time by `bookId`
  and persists the whole list after every change; `BookDetailView`'s buttons drive
  the reservation rule; `filteredAndSortedBooks` is the search and six-way sort.
 */
module LibraryStore {

  import opened Wrappers
  import opened Text
  import opened Sequences

  datatype ReservationStatus = NotReserved | Pending | Approved

  /** The record the store holds; its declaration is not part of this model, its fields are those the views use. */
  datatype Book = Book(
    bookId: int,
    title: string,
    author: string,
    isbn: string,
    shelfLocation: string,
    publishedYear: int,
    copies: int,
    isAvailable: bool,
    reservationStatus: ReservationStatus,
    isWishlisted: bool)

  /** `{ $0.bookId == bookId }`. */
  function HasId(bookId: int): Book -> bool
  {
    (b: Book) => b.bookId == bookId
  }

  /** `books.firstIndex(where: { $0.bookId == bookId })`. */
  function IndexOf(books: seq<Book>, bookId: int): Option<nat>
  {
    FirstIndex(books, HasId(bookId))
  }

  /** `books` after `updateCopies(for: bookId, newCopies:)`. */
  function WithCopies(books: seq<Book>, bookId: int, newCopies: int): seq<Book>
  {
    match IndexOf(books, bookId)
    case None => books
    case Some(i) => books[i := books[i].(copies := newCopies, isAvailable := newCopies > 0)]
  }

  /** `books` after `updateReservationStatus(for: bookId, newStatus:)`. */
  function WithReservationStatus(books: seq<Book>, bookId: int, newStatus: ReservationStatus): seq<Book>
  {
    match IndexOf(books, bookId)
    case None => books
    case Some(i) => books[i := books[i].(reservationStatus := newStatus)]
  }

  /** `books` after `updateWishlistStatus(for: bookId, isWishlisted:)`. */
  function WithWishlist(books: seq<Book>, bookId: int, isWishlisted: bool): seq<Book>
  {
    match IndexOf(books, bookId)
    case None => books
    case Some(i) => books[i := books[i].(isWishlisted := isWishlisted)]
  }

  /** `k` is the position of the first book with id `bookId`. */
  predicate FirstWithId(books: seq<Book>, bookId: int, k: nat)
  {
    k < |books| && books[k].bookId == bookId && forall j :: 0 <= j < k ==> books[j].bookId != bookId
  }

  /**
    Each update changes the first book with the given id, in the one field it sets
    (for `updateCopies`: `copies` to the new value, unclamped, and `isAvailable` to
    whether it is positive), and leaves every other book as it was.
   */
  lemma UpdatesChangeOnlyFirstMatch(books: seq<Book>, bookId: int, k: nat, n: int, s: ReservationStatus, w: bool)
    requires FirstWithId(books, bookId, k)
    ensures WithCopies(books, bookId, n) == books[k := books[k].(copies := n, isAvailable := n > 0)]
    ensures WithReservationStatus(books, bookId, s) == books[k := books[k].(reservationStatus := s)]
    ensures WithWishlist(books, bookId, w) == books[k := books[k].(isWishlisted := w)]
  {
    FirstIndexIsFirstMatch(books, HasId(bookId), k);
  }

  /** All three updates do nothing when no book has the id. */
  lemma UpdatesIgnoreUnknownId(books: seq<Book>, bookId: int, n: int, s: ReservationStatus, w: bool)
    requires forall i :: 0 <= i < |books| ==> books[i].bookId != bookId
    ensures WithCopies(books, bookId, n) == books
    ensures WithReservationStatus(books, bookId, s) == books
    ensures WithWishlist(books, bookId, w) == books
  {
  }

  /** Changing a reservation status leaves every id where it was. */
  lemma StatusKeepsIndex(books: seq<Book>, bookId: int, s: ReservationStatus)
    ensures IndexOf(WithReservationStatus(books, bookId, s), bookId) == IndexOf(books, bookId)
  {
    match IndexOf(books, bookId)
    case None =>
    case Some(k) =>
      FirstIndexIsFirstMatch(WithReservationStatus(books, bookId, s), HasId(bookId), k);
  }

  /** Setting the wishlist flag twice to the same value is the same as setting it once. */
  lemma WishlistIdempotent(books: seq<Book>, bookId: int, w: bool)
    ensures WithWishlist(WithWishlist(books, bookId, w), bookId, w) == WithWishlist(books, bookId, w)
  {
    var once := WithWishlist(books, bookId, w);
    match IndexOf(books, bookId)
    case None =>
    case Some(k) =>
      assert FirstWithId(once, bookId, k);
      FirstIndexIsFirstMatch(once, HasId(bookId), k);
  }

  /** `isAvailable` agrees with `copies > 0` for every book. */
  ghost predicate AvailabilityConsistent(books: seq<Book>)
  {
    forall i :: 0 <= i < |books| ==> books[i].isAvailable == (books[i].copies > 0)
  }

  ghost predicate CopiesNonNegative(books: seq<Book>)
  {
    forall i :: 0 <= i < |books| ==> books[i].copies >= 0
  }

  /** Every update keeps `isAvailable == (copies > 0)`; only `updateCopies` can make copies negative. */
  lemma UpdatesPreserveInvariants(books: seq<Book>, bookId: int, n: int, s: ReservationStatus, w: bool)
    ensures AvailabilityConsistent(books) ==>
              && AvailabilityConsistent(WithCopies(books, bookId, n))
              && AvailabilityConsistent(WithReservationStatus(books, bookId, s))
              && AvailabilityConsistent(WithWishlist(books, bookId, w))
    ensures CopiesNonNegative(books) ==>
              && (n >= 0 ==> CopiesNonNegative(WithCopies(books, bookId, n)))
              && CopiesNonNegative(WithReservationStatus(books, bookId, s))
              && CopiesNonNegative(WithWishlist(books, bookId, w))
  {
  }

  /** `updateCopies` itself does not clamp: a negative count is stored as given. */
  lemma UpdateCopiesDoesNotClamp(books: seq<Book>, bookId: int, n: int)
    requires IndexOf(books, bookId).Some? && n < 0
    ensures !CopiesNonNegative(WithCopies(books, bookId, n))
  {
    var k := IndexOf(books, bookId).value;
    assert WithCopies(books, bookId, n)[k].copies == n;
  }

  // ---------------------------------------------------------------------------
  // The reserve and wishlist buttons of `BookDetailView` (BooksView.swift:247-292)

  function Max(a: int, b: int): int
  {
    if a >= b then a else b
  }

  /** Whether the reserve button is enabled for the detail view's copy of the book. */
  predicate ReserveEnabled(book: Book)
  {
    book.isAvailable && book.reservationStatus == NotReserved
  }

  /**
    The store after the reserve action for the view's copy `book`: from `notReserved`
    the status becomes `pending`, then the copies become `max(0, book.copies - 1)`;
    from any other status nothing happens.
   */
  function Reserved(books: seq<Book>, book: Book): seq<Book>
  {
    if book.reservationStatus == NotReserved then
      WithCopies(WithReservationStatus(books, book.bookId, Pending), book.bookId, Max(0, book.copies - 1))
    else books
  }

  /**
    Reserving the `k`-th book (the first with its id) from `notReserved` makes it
    `pending` with one copy fewer (never below 0) and availability following the
    count; every other book and field is unchanged. From any other status the
    action changes nothing.
   */
  lemma ReserveEffect(books: seq<Book>, k: nat)
    requires k < |books| && FirstWithId(books, books[k].bookId, k)
    ensures var book := books[k];
            book.reservationStatus == NotReserved ==>
              var c := Max(0, book.copies - 1);
              Reserved(books, book) == books[k := book.(reservationStatus := Pending, copies := c, isAvailable := c > 0)]
    ensures books[k].reservationStatus != NotReserved ==> Reserved(books, books[k]) == books
  {
    var book := books[k];
    if book.reservationStatus == NotReserved {
      var pending := WithReservationStatus(books, book.bookId, Pending);
      UpdatesChangeOnlyFirstMatch(books, book.bookId, k, 0, Pending, false);
      assert FirstWithId(pending, book.bookId, k);
      UpdatesChangeOnlyFirstMatch(pending, book.bookId, k, Max(0, book.copies - 1), Pending, false);
    }
  }

  /**
    Reserving the last copy leaves 0 copies, unavailable and pending; the refreshed
    record then has the reserve button disabled, and reserving it again changes
    nothing, so copies are not decremented twice.
   */
  lemma ReserveLastCopy(books: seq<Book>, k: nat)
    requires k < |books| && FirstWithId(books, books[k].bookId, k)
    requires books[k].reservationStatus == NotReserved && books[k].copies == 1
    ensures var after := Reserved(books, books[k]);
            && after[k].copies == 0 && !after[k].isAvailable && after[k].reservationStatus == Pending
            && !ReserveEnabled(after[k])
            && Reserved(after, after[k]) == after
  {
    ReserveEffect(books, k);
  }

  /** Whatever the view's copy says, reserving keeps copies non-negative and availability consistent. */
  lemma ReservePreservesInvariants(books: seq<Book>, book: Book)
    requires AvailabilityConsistent(books) && CopiesNonNegative(books)
    ensures AvailabilityConsistent(Reserved(books, book)) && CopiesNonNegative(Reserved(books, book))
  {
    var pending := WithReservationStatus(books, book.bookId, Pending);
    UpdatesPreserveInvariants(books, book.bookId, 0, Pending, false);
    UpdatesPreserveInvariants(pending, book.bookId, Max(0, book.copies - 1), Pending, false);
  }

  // ---------------------------------------------------------------------------
  // Search and sort (BooksView.swift:75-99)

  datatype SortOption = TitleAsc | TitleDesc | AuthorAsc | AuthorDesc | YearAsc | YearDesc

  /** The `sorted(by:)` predicate for each sort option. */
  predicate Before(option: SortOption, a: Book, b: Book)
  {
    match option
    case TitleAsc => LexLess(Lower(a.title), Lower(b.title))
    case TitleDesc => LexLess(Lower(b.title), Lower(a.title))
    case AuthorAsc => LexLess(Lower(a.author), Lower(b.author))
    case AuthorDesc => LexLess(Lower(b.author), Lower(a.author))
    case YearAsc => a.publishedYear < b.publishedYear
    case YearDesc => a.publishedYear > b.publishedYear
  }

  function BeforeFn(option: SortOption): (Book, Book) -> bool
  {
    (a: Book, b: Book) => Before(option, a, b)
  }

  lemma BeforeIsStrictWeakOrder(option: SortOption)
    ensures StrictWeakOrder(BeforeFn(option))
  {
    forall a: Book, b: Book, c: Book
      ensures Before(option, a, b) ==> !Before(option, b, a)
      ensures !Before(option, b, a) && !Before(option, c, b) ==> !Before(option, c, a)
    {
      match option {
        case TitleAsc =>
          LexLessIsStrictWeakOrder(Lower(a.title), Lower(b.title), Lower(c.title));
        case TitleDesc =>
          LexLessIsStrictWeakOrder(Lower(b.title), Lower(a.title), Lower(c.title));
          LexLessIsStrictWeakOrder(Lower(c.title), Lower(b.title), Lower(a.title));
        case AuthorAsc =>
          LexLessIsStrictWeakOrder(Lower(a.author), Lower(b.author), Lower(c.author));
        case AuthorDesc =>
          LexLessIsStrictWeakOrder(Lower(b.author), Lower(a.author), Lower(c.author));
          LexLessIsStrictWeakOrder(Lower(c.author), Lower(b.author), Lower(a.author));
        case YearAsc =>
        case YearDesc =>
      }
    }
  }

  /** The search rule: the lower-cased title or author contains the lower-cased text. */
  predicate MatchesSearch(book: Book, searchText: string)
  {
    Contains(Lower(book.title), Lower(searchText)) || Contains(Lower(book.author), Lower(searchText))
  }

  function SearchFiltered(books: seq<Book>, searchText: string): seq<Book>
  {
    if searchText == [] then books else Filter(books, (b: Book) => MatchesSearch(b, searchText))
  }

  /** `filteredAndSortedBooks`. */
  function FilteredAndSorted(books: seq<Book>, searchText: string, option: SortOption): seq<Book>
  {
    SortBy(SearchFiltered(books, searchText), BeforeFn(option))
  }

  /**
    Empty search text keeps every book; otherwise exactly the books matching the
    search are kept. The result is a permutation of the filtered list in which no
    book comes, by the chosen key and direction, before one listed ahead of it;
    books with equal keys keep the order they had in the filtered list.
   */
  lemma FilteredAndSortedSpec(books: seq<Book>, searchText: string, option: SortOption)
    ensures searchText == [] ==> multiset(FilteredAndSorted(books, searchText, option)) == multiset(books)
    ensures forall b :: b in FilteredAndSorted(books, searchText, option) <==>
              b in books && (searchText == [] || MatchesSearch(b, searchText))
    ensures multiset(FilteredAndSorted(books, searchText, option)) == multiset(SearchFiltered(books, searchText))
    ensures var r := FilteredAndSorted(books, searchText, option);
            forall i, j :: 0 <= i < j < |r| ==> !Before(option, r[j], r[i])
    ensures forall y :: Filter(FilteredAndSorted(books, searchText, option), Tied(BeforeFn(option), y)) ==
                        Filter(SearchFiltered(books, searchText), Tied(BeforeFn(option), y))
  {
    var filtered := SearchFiltered(books, searchText);
    BeforeIsStrictWeakOrder(option);
    SortBySorted(filtered, BeforeFn(option));
    forall y
      ensures Filter(FilteredAndSorted(books, searchText, option), Tied(BeforeFn(option), y)) ==
              Filter(filtered, Tied(BeforeFn(option), y))
    {
      SortByStable(filtered, BeforeFn(option), y);
    }
    var r := FilteredAndSorted(books, searchText, option);
    forall b
      ensures b in r <==> b in filtered
    {
      assert b in r <==> multiset(r)[b] > 0;
      assert b in filtered <==> multiset(filtered)[b] > 0;
    }
  }

  // ---------------------------------------------------------------------------
  // The store object

  /** `LibraryModel`: the in-memory catalog and the `savedBooks` entry of the local key-value store. */
  class LibraryModel {
    var books: seq<Book>
    var savedBooks: Option<seq<Book>>

    /**
      `init()`: the persisted list when one decodes (`saved`), else the bundled
      dataset. Assignments in an initializer do not trigger the save.
     */
    constructor (saved: Option<seq<Book>>, bundled: seq<Book>)
      ensures books == (if saved.Some? then saved.value else bundled)
      ensures savedBooks == saved
    {
      books := if saved.Some? then saved.value else bundled;
      savedBooks := saved;
    }

    /** `updateCopies(for:newCopies:)`: two writes, each saving the whole list. */
    method UpdateCopies(bookId: int, newCopies: int)
      modifies this
      ensures books == WithCopies(old(books), bookId, newCopies)
      ensures savedBooks == if IndexOf(old(books), bookId).Some? then Some(books) else old(savedBooks)
    {
      var index := IndexOf(books, bookId);
      if index.Some? {
        var i := index.value;
        books := books[i := books[i].(copies := newCopies)];
        savedBooks := Some(books);
        books := books[i := books[i].(isAvailable := newCopies > 0)];
        savedBooks := Some(books);
      }
    }

    /** `updateReservationStatus(for:newStatus:)`: a plain setter, no transition check. */
    method UpdateReservationStatus(bookId: int, newStatus: ReservationStatus)
      modifies this
      ensures books == WithReservationStatus(old(books), bookId, newStatus)
      ensures savedBooks == if IndexOf(old(books), bookId).Some? then Some(books) else old(savedBooks)
    {
      var index := IndexOf(books, bookId);
      if index.Some? {
        var i := index.value;
        books := books[i := books[i].(reservationStatus := newStatus)];
        savedBooks := Some(books);
      }
    }

    /** `updateWishlistStatus(for:isWishlisted:)`. */
    method UpdateWishlistStatus(bookId: int, isWishlisted: bool)
      modifies this
      ensures books == WithWishlist(old(books), bookId, isWishlisted)
      ensures savedBooks == if IndexOf(old(books), bookId).Some? then Some(books) else old(savedBooks)
    {
      var index := IndexOf(books, bookId);
      if index.Some? {
        var i := index.value;
        books := books[i := books[i].(isWishlisted := isWishlisted)];
        savedBooks := Some(books);
      }
    }
  }

  /** `BookDetailView`: a value copy of one book, the shared store, and the alert flag. */
  class BookDetailView {
    const book: Book
    const libraryModel: LibraryModel
    var showReserveAlert: bool

    constructor (book: Book, libraryModel: LibraryModel)
      ensures this.book == book && this.libraryModel == libraryModel && !showReserveAlert
    {
      this.book := book;
      this.libraryModel := libraryModel;
      showReserveAlert := false;
    }

    /** The reserve button's action; the guard reads the view's copy, not the store. */
    method TapReserve()
      modifies this`showReserveAlert, libraryModel
      ensures libraryModel.books == Reserved(old(libraryModel.books), book)
      ensures libraryModel.savedBooks ==
                if book.reservationStatus == NotReserved && IndexOf(old(libraryModel.books), book.bookId).Some?
                then Some(libraryModel.books) else old(libraryModel.savedBooks)
      ensures showReserveAlert == (book.reservationStatus == NotReserved || old(showReserveAlert))
    {
      if book.reservationStatus == NotReserved {
        StatusKeepsIndex(libraryModel.books, book.bookId, Pending);
        libraryModel.UpdateReservationStatus(book.bookId, Pending);
        libraryModel.UpdateCopies(book.bookId, Max(0, book.copies - 1));
        showReserveAlert := true;
      }
    }

    /** The wishlist button's action: store the negation of the copy's flag. */
    method TapWishlist()
      modifies libraryModel
      ensures libraryModel.books == WithWishlist(old(libraryModel.books), book.bookId, !book.isWishlisted)
      ensures libraryModel.savedBooks ==
                if IndexOf(old(libraryModel.books), book.bookId).Some? then Some(libraryModel.books)
                else old(libraryModel.savedBooks)
    {
      libraryModel.UpdateWishlistStatus(book.bookId, !book.isWishlisted);
    }
  }
}
