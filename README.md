# Lib1 catalog logic in Dafny

Lib1 is an iOS library app. Its catalog logic is a small, sequential layer
inside SwiftUI views and Firebase callbacks. This project models that layer
and proves what it promises.

- **CSV ingestion** (`Lib1/Lib1/availablebooks.swift`):
  - the quote-toggling field splitter `String.splitCSV`;
  - `parseCSV`, which decodes the 12-column dataset and records one error per skipped row;
  - the category / "Available Only" filter `filterBooks`;
  - `loadBooks`;
  - the local list update after a successful `issueBook`.
- **Local store and reservation rule** (`Lib1/Lib1/BooksView.swift`):
  - `LibraryModel`, a class whose `books` array changes in place by `bookId` lookup. Every change triggers a save, whose effect is modelled as the `savedBooks` field.
  - The reserve and wishlist buttons of `BookDetailView`.
  - The search and six-way sort `filteredAndSortedBooks`.
- **Catalog query** (`Lib1/Lib1/c.swift`, with the record of `Lib1/Lib1/books.swift`):
  - `CatalogViewModel.fetchBooks` and its empty-catalog message;
  - the four-filter, title-sorted `filteredBooks`.
- **Membership rules** (`MembersView` in `Lib1/Lib1/LibrarianDashboardView.swift`):
  - how member records are derived in `fetchMembers`;
  - the `filteredMembers` search;
  - the guarded `extendMembership` and `revokeMembership`.

Modules, one file each:
- `Wrappers`: `Option`, `Result`.
- `Text`: string primitives.
- `Sequences`: `filter`, `compactMap`, `firstIndex(where:)`, `sorted(by:)`.
- `Csv`: the splitter.
- `AvailableBooks`, `LibraryStore`, `Catalog`, `Members`: the four parts listed above.

Code that updates state step by step becomes Dafny methods, proved against specification functions:
- the splitter loop, the row loop of `parseCSV` and the member-building loops of `fetchMembers`;
- the methods of the view classes `AvailableBooksView`, `LibraryModel`, `BookDetailView`, `CatalogViewModel` and `MembersView`.

Lemmas then prove the promised properties about those specification functions.

Remote services are never called. Each call becomes a parameter that carries its outcome: the authentication state, Firestore reads and writes, the snapshot listeners and the issued-books queries. The same goes for the bundled CSV resource and the persisted `savedBooks` entry. Three more things are also parameters:
- the clock (`Date()`), as an integer `now`;
- the calendar's "one year later", as a function `int -> Option<int>` applied to the member's expiry date;
- the date formatter, as a function `int -> string`.

Strings are sequences of characters. `lowercased()` is ASCII lower-casing. String `<` is lexicographic order on characters.

## Model

| member | source | states |
|---|---|---|
| Text.Trim | Lib1/Lib1/availablebooks.swift:202-212 | `trimmingCharacters(in: ["\""])` keeps the slice of the column that starts right after its leading run of quotes; every character outside that slice is a quote, the slice neither starts nor ends with one, and a column without quotes comes back unchanged |
| Text.LexLessIsStrictWeakOrder | Lib1/Lib1/c.swift:92 | string `<` is asymmetric and "not less" is transitive, as `sorted(by:)` requires of its predicate |
| Text.LexLessTotal | Lib1/Lib1/c.swift:92 | two strings are equal or one is less than the other |
| Sequences.Filter | Lib1/Lib1/availablebooks.swift:260 | `filter` keeps exactly the elements that pass, each as often as it occurs, and never lengthens the list |
| Sequences.FilterAppend | Lib1/Lib1/availablebooks.swift:260-265 | `filter` keeps the input order: filtering `a + b` gives the kept elements of `a` followed by those of `b` |
| Sequences.CompactMapCount | Lib1/Lib1/c.swift:44-46 | `compactMap` returns exactly one value per element for which the transform yields one |
| Sequences.CompactMapMembers | Lib1/Lib1/c.swift:44-46 | a value is in the result of `compactMap` iff the transform yields it for some element |
| Sequences.CompactMapAppend | Lib1/Lib1/c.swift:44-46 | `compactMap` keeps the input order: it maps `a + b` to the values of `a` followed by those of `b` |
| Sequences.FirstIndexIsFirstMatch | Lib1/Lib1/BooksView.swift:20 | an index holding the first element that satisfies the test is the one `firstIndex(where:)` returns |
| Sequences.FirstIndex | Lib1/Lib1/BooksView.swift:20 | `firstIndex(where:)` returns the least matching index, and none exactly when no element matches |
| Sequences.SortBySorted | Lib1/Lib1/BooksView.swift:85-98 | under a strict weak order, `sorted(by:)` returns a permutation of its input in which no element comes before one listed ahead of it |
| Sequences.SortByStable | Lib1/Lib1/BooksView.swift:85-98 | `sorted(by:)` is stable: under a strict weak order, the elements tied with any given element appear in the result in their input order |
| Csv.SplitCsv | Lib1/Lib1/availablebooks.swift:378-396 | the character loop computes exactly the fields of the quote-toggling fold `Fields` |
| Csv.FieldCount | Lib1/Lib1/availablebooks.swift:378-396 | `splitCSV` returns one field more than there are commas outside quotes, so it never returns an empty list |
| Csv.FieldsHaveNoQuotes | Lib1/Lib1/availablebooks.swift:384-385 | no returned field contains `"`: every quote only toggles `insideQuotes` |
| Csv.JoinFieldsRemovesQuotes | Lib1/Lib1/availablebooks.swift:386-394 | joining the fields with "," gives back the input with every `"` removed, so quoted commas stay in their field and the other commas become separators |
| Csv.DoubledQuoteVanishes | Lib1/Lib1/availablebooks.swift:384-385 | inserting `""` anywhere leaves the fields unchanged: a doubled quote is not an escaped quote, unlike rule 7 of section 2 of RFC 4180 |
| Csv.DoubledQuoteExample | Lib1/Lib1/availablebooks.swift:383-395 | `"a""b",c` splits into `ab` and `c` |
| AvailableBooks.ParseInt | Lib1/Lib1/availablebooks.swift:209 | `Int(_:)` yields only values in the 64-bit range |
| AvailableBooks.ParseIntShowNat | Lib1/Lib1/availablebooks.swift:213 | a decimal count or year within 64 bits reads back as itself |
| AvailableBooks.Lines | Lib1/Lib1/availablebooks.swift:187 | `components(separatedBy: "\n")` returns at least one piece, and no piece holds a newline |
| AvailableBooks.LinesJoin | Lib1/Lib1/availablebooks.swift:187 | joining the pieces with a newline gives the file contents back |
| AvailableBooks.DecodeRowOfSplitColumns | Lib1/Lib1/availablebooks.swift:201-217 | a split row is accepted iff it has at least 12 columns, a non-empty id, and a title and author that are neither empty nor "Unknown"; the book carries those columns; `available` holds iff the is_available column is empty or lower-cases to "yes"; a short row is rejected with its column count |
| AvailableBooks.ParseCsv | Lib1/Lib1/availablebooks.swift:178-254 | `parseCSV` computes exactly `Parse`: failures for a missing, unreadable or line-less file, and `NoValidBooks` with the errors when rows exist but none was accepted |
| AvailableBooks.DecodeRows | Lib1/Lib1/availablebooks.swift:194-239 | the loop over the data rows, splitting each with `splitCSV`, collects exactly the books and errors of the row outcomes in row order |
| AvailableBooks.TallyAccountsForEveryRow | Lib1/Lib1/availablebooks.swift:194-239 | appending books and errors row by row loses no row: the counts add up, each row's book or error is present, and every book comes from an accepted row |
| AvailableBooks.DecodedAccountsForEveryRow | Lib1/Lib1/availablebooks.swift:197-238 | every data row becomes a book or a recorded error, and books plus errors number the rows |
| AvailableBooks.ShortRowIsRecorded | Lib1/Lib1/availablebooks.swift:201-237 | a row with fewer than 12 columns is recorded as an `InsufficientColumns` error with its row number and count |
| AvailableBooks.DecodedBooksHaveRequiredFields | Lib1/Lib1/availablebooks.swift:217-235 | every decoded book has a non-empty id, and a title and author that are set and not "Unknown" |
| AvailableBooks.ParseOutcome | Lib1/Lib1/availablebooks.swift:187-248 | parsing fails iff the file has no non-empty line or has data rows none of which was accepted; the header alone gives an empty list; on success the books come from the rows after the header, in order |
| AvailableBooks.ShownBooksSpec | Lib1/Lib1/availablebooks.swift:256-271 | a book is shown iff it is in `allBooks`, is available when the toggle is on, and matches the category ignoring case unless "All"; a book that passes is shown exactly as often as it occurs in `allBooks`; "All" with the toggle off shows `allBooks` unchanged |
| AvailableBooks.ShownBooksKeepOrder | Lib1/Lib1/availablebooks.swift:256-271 | the shown books keep the order of `allBooks`: those shown for `front + back` are those shown for `front` followed by those shown for `back` |
| AvailableBooks.ShownBook | Lib1/Lib1/availablebooks.swift:256-271 | a one-book list is shown whole iff the book passes both filters; with `ShownBooksKeepOrder` this fixes the shown list |
| AvailableBooks.MarkIssuedChangesOnlyThatBook | Lib1/Lib1/availablebooks.swift:315-330 | after a successful issue, only the first entry with the issued id changes: it becomes the issued book, unavailable, and when that entry is the issued book only `available` changes; later entries with the same id are untouched |
| AvailableBooks.MarkIssuedDuplicateId | Lib1/Lib1/availablebooks.swift:315-330 | with two rows sharing an id, issuing the second overwrites the first entry with the second's data and leaves the second available |
| AvailableBooks.MarkIssuedUnknownId | Lib1/Lib1/availablebooks.swift:315 | issuing a book whose id is not listed leaves `allBooks` unchanged |
| AvailableBooks.AvailableBooksView.FilterBooks | Lib1/Lib1/availablebooks.swift:256-271 | `books` becomes the shown subset of `allBooks` for the current category and toggle |
| AvailableBooks.AvailableBooksView.SelectCategory | Lib1/Lib1/availablebooks.swift:153 | changing the category re-filters with the new category |
| AvailableBooks.AvailableBooksView.SetAvailableOnly | Lib1/Lib1/availablebooks.swift:154 | changing the toggle re-filters with the new toggle |
| AvailableBooks.AvailableBooksView.LoadBooks | Lib1/Lib1/availablebooks.swift:158-176 | on success `allBooks` is the parsed list and `books` its filtered view; on failure only the "Failed to load CSV file" message changes; loading ends false either way |
| AvailableBooks.AvailableBooksView.IssueBook | Lib1/Lib1/availablebooks.swift:273-335 | each failure sets its own alert and leaves the lists alone; success marks the book issued, re-filters and announces it |
| LibraryStore.UpdatesChangeOnlyFirstMatch | Lib1/Lib1/BooksView.swift:19-36 | each update changes only the first book with the id, and only its field; `updateCopies` stores the count unclamped and sets `isAvailable` to `count > 0` |
| LibraryStore.UpdatesIgnoreUnknownId | Lib1/Lib1/BooksView.swift:19-36 | all three updates are no-ops when no book has the id |
| LibraryStore.WishlistIdempotent | Lib1/Lib1/BooksView.swift:32-36 | setting the wishlist flag twice to the same value equals setting it once |
| LibraryStore.UpdatesPreserveInvariants | Lib1/Lib1/BooksView.swift:19-36 | every update keeps `isAvailable == (copies > 0)`; non-negative copies survive every update except a negative `updateCopies` |
| LibraryStore.UpdateCopiesDoesNotClamp | Lib1/Lib1/BooksView.swift:19-24 | a negative count given to `updateCopies` is stored as is; the clamp lives only at the reserve call site |
| LibraryStore.ReserveEffect | Lib1/Lib1/BooksView.swift:278-284 | from `notReserved`, reserve sets the book to `pending` with `max(0, copies - 1)` copies and matching availability, changing nothing else; from any other status it changes nothing |
| LibraryStore.ReserveLastCopy | Lib1/Lib1/BooksView.swift:278-292 | reserving the last copy leaves 0 copies, unavailable and pending; the reserve button is then disabled, and reserving the refreshed record again changes nothing |
| LibraryStore.ReservePreservesInvariants | Lib1/Lib1/BooksView.swift:278-284 | reserving keeps copies non-negative and availability consistent, whatever the view's copy of the book says |
| LibraryStore.BeforeIsStrictWeakOrder | Lib1/Lib1/BooksView.swift:85-98 | each of the six sort predicates is a strict weak order |
| LibraryStore.FilteredAndSortedSpec | Lib1/Lib1/BooksView.swift:75-99 | empty search keeps every book; otherwise exactly the books whose lower-cased title or author contains the lower-cased text; the result is a permutation of the filtered list, ordered by the chosen key and direction, and books with equal keys keep their filtered-list order |
| LibraryStore.LibraryModel.constructor | Lib1/Lib1/BooksView.swift:10-17 | the store starts from the saved list when one decodes, else from the bundled dataset |
| LibraryStore.LibraryModel.UpdateCopies | Lib1/Lib1/BooksView.swift:19-24 | `books` becomes `WithCopies(old books)`; the whole list is saved when a book was found |
| LibraryStore.LibraryModel.UpdateReservationStatus | Lib1/Lib1/BooksView.swift:26-30 | `books` becomes `WithReservationStatus(old books)`; the list is saved when a book was found |
| LibraryStore.LibraryModel.UpdateWishlistStatus | Lib1/Lib1/BooksView.swift:32-36 | `books` becomes `WithWishlist(old books)`; the list is saved when a book was found |
| LibraryStore.BookDetailView.TapReserve | Lib1/Lib1/BooksView.swift:278-284 | the reserve action applies `Reserved` to the store for the view's copy, saves the list exactly when it reserved a listed book, and raises the alert only from `notReserved` |
| LibraryStore.BookDetailView.TapWishlist | Lib1/Lib1/BooksView.swift:247-249 | the wishlist button stores the negation of the view copy's flag, and saves the list exactly when the book is listed |
| Catalog.DecodedCounts | Lib1/Lib1/c.swift:44-46 | `compactMap` over the decoded documents yields each book exactly as often as a document decoded to it |
| Catalog.Loaded | Lib1/Lib1/c.swift:44-47 | after a snapshot the list holds one book per document that decoded, each book as often as a document decodes to it; a missing snapshot gives none; `errorMessage` is "No books found in the catalog." exactly when the list is empty, and nil otherwise |
| Catalog.FilteredBooksSpec | Lib1/Lib1/c.swift:64-93 | a book is in `filteredBooks` iff it is in `books` and passes all four filters: empty or lower-cased substring search on title or author, exact genre, availability, inclusive date range; counts are kept; titles ascend, and books with equal titles keep the order of the filtered list |
| Catalog.NoCriteriaShowsEverything | Lib1/Lib1/c.swift:64-93 | with no criteria set the result is a reordering of all books |
| Catalog.AvailabilityPartitions | Lib1/Lib1/c.swift:75-83 | "Available" and "On Loan" split what "All" shows: no book is under both, and together they show it as often as "All" does |
| Catalog.TitleBeforeIsStrictWeakOrder | Lib1/Lib1/c.swift:92 | the title order is a strict weak order |
| Catalog.CatalogViewModel.FetchBooks | Lib1/Lib1/c.swift:31-49 | signed out: only the sign-in message; listener error: the failure message, books kept; snapshot: the decoded books, with the message set iff none decoded |
| Members.MemberIdOf | Lib1/Lib1/LibrarianDashboardView.swift:489 | the member ID is "M" followed by a prefix of the document id of length `min(8, length)` |
| Members.MemberOf | Lib1/Lib1/LibrarianDashboardView.swift:481-523 | a document yields a member iff it has a string name; missing dates default to now, a missing status to "active"; the borrowed books are those the issued-books query found, none when it failed |
| Members.ValidIssues | Lib1/Lib1/LibrarianDashboardView.swift:503-512 | one borrowed book per issue document that has a string book id, title and author, and only such books |
| Members.CollectBorrowed | Lib1/Lib1/LibrarianDashboardView.swift:503-512 | the loop over issue documents computes `ValidIssues` |
| Members.Collected | Lib1/Lib1/LibrarianDashboardView.swift:477-525 | the temporary list holds one record per named document, and only records of named documents |
| Members.BuildMembers | Lib1/Lib1/LibrarianDashboardView.swift:474-525 | the loop over user documents, skipping unnamed ones, computes `Collected` |
| Members.FetchedSpec | Lib1/Lib1/LibrarianDashboardView.swift:474-528 | the members list holds one record per named document and only such records, each with its derived member ID, and is empty when no document is named; it is ordered by lower-cased name, and records with equal lower-cased names keep their collected order |
| Members.FilteredMembersSpec | Lib1/Lib1/LibrarianDashboardView.swift:169-178 | empty search text gives `members` itself; otherwise a member is kept iff its lower-cased name or member ID contains the lower-cased text |
| Members.RefusalsChangeNothing | Lib1/Lib1/LibrarianDashboardView.swift:541-641 | a non-active member, a member not listed, a missing new expiry, borrowed books (revoke) or a failed write leave the list unchanged; each raises its own alert: the member's name and status, "Member not found", the expiry failure, the borrowed-book count, or the permission / generic write failure |
| Members.ExtensionSuccess | Lib1/Lib1/LibrarianDashboardView.swift:561-587 | a successful extension replaces only the member's entry, by the given record with its expiry moved one calendar year on, and announces it with the formatted date; with a calendar that moves dates forward the new expiry is later than the old |
| Members.RevocationSuccess | Lib1/Lib1/LibrarianDashboardView.swift:618-640 | a successful revocation replaces only the member's entry, now "inactive" and expiring at the current date |
| Members.StatusTransitions | Lib1/Lib1/LibrarianDashboardView.swift:590-641 | revocation writes "inactive" and extension only an "active" record; once the stored record is inactive, neither action changes the list again |
| Members.MembersView.FetchMembers | Lib1/Lib1/LibrarianDashboardView.swift:422-539 | each failure (signed out, role lookup, role not Librarian/Admin, listener error with its permission variant, no snapshot) sets its message and keeps the list; a snapshot sets the sorted records, with the "No valid members" message iff empty; loading ends false |
| Members.MembersView.ExtendMembership | Lib1/Lib1/LibrarianDashboardView.swift:541-588 | the list and alert become `Extension` of the old list; the alert shows and `isUpdating` is false on every exit |
| Members.MembersView.RevokeMembership | Lib1/Lib1/LibrarianDashboardView.swift:590-641 | the list and alert become `Revocation` of the old list; the alert shows and `isUpdating` is false on every exit |

## Left out

- Firestore and FirebaseAuth. Reads, writes, snapshot listeners and the sign-in check are remote and asynchronous. Each becomes a parameter carrying its outcome, and each callback is applied at once.
- `syncCSVToFirestore` (`availablebooks.swift:340-373`): a batch write to the remote store with no local effect except an error message.
- The `errorMessage` values that `parseCSV` sets before it returns nil. `loadBooks` overwrites them with its own message, and only that one is modelled. The reasons for failure are kept as the `ParseFailure` datatype.
- JSON encoding and decoding of `savedBooks`. The foreign encoder is not modelled. A saved list that does not decode is the `None` given to the `LibraryModel` constructor. An encoding failure, which only prints, is not modelled.
- `Book.loadBooksFromCSV` and the `Book` record used by `BooksView.swift`. Neither is part of this model. The record's fields are those the views use, and the bundled dataset is a constructor parameter.
- `Lib1/Lib1/home.swift`, `userprofile.swift`, `AdminDashboardView.swift`, `CatalogView.swift`, `BookingView.swift`, `Lib1App.swift`, `Main.swift` and `DataModels.swift`, plus all view layout. These are network fan-out, UI or sample data.
- Calendar arithmetic and date formatting. Dates are integers; "one year later" and the medium date format are parameters.
- `Date()` is called twice for the two default dates of a member record. Both calls are one `now`.
- Locale-aware `lowercased()`, Unicode grapheme clusters, and the `\r\n` line ending. Characters are Dafny `char`s, lower-casing is ASCII, and lines are split on `\n` alone.
- Text.Contains: an empty needle counts as contained. What the platform does with an empty needle is not modelled. Every call site with a user-typed needle checks for empty text first, and the members listener's "permission" needle is a non-empty constant, so the difference never arises.
- Members.Collected: records are appended in document order. In the app they are appended in the order the issued-books queries complete, which this model does not capture.
- Combine's `objectWillChange` re-publishing in `setupFilterBindings`. It only triggers a redraw, and `filteredBooks` is recomputed from the current fields.
- The confirmation dialogs that choose `memberToExtend` / `memberToRevoke`. The actions take the chosen record as an argument. On success the listed entry is replaced by that argument, as in the app.
