/**
  The "Available Books" screen (Lib1/Lib1/availablebooks.swift): decoding of the
  bundled 12-column book dataset, the category / availability filter, and the
  local list update after a book has been issued.
 */
module AvailableBooks {

  import opened Wrappers
  import opened Text
  import opened Sequences
  import opened Csv

  /** One decoded dataset row (`AvailableBooksView.Book`). */
  datatype CsvBook = CsvBook(
    id: string,
    title: string,
    author: string,
    isbn: Option<string>,
    category: string,
    language: Option<string>,
    publisher: Option<string>,
    publicationYear: Option<int>,
    shelfLocation: Option<string>,
    status: Option<string>,
    copies: Option<int>,
    available: bool)

  /** Why a data row was skipped; `row` is its 1-based number after the header. */
  datatype RowError =
    | InsufficientColumns(row: nat, count: nat)
    | MissingRequired(row: nat)

  datatype RowOutcome = Accepted(book: CsvBook) | Rejected(error: RowError)

  /** Where the dataset comes from: the bundled resource may be absent or unreadable. */
  datatype CsvSource = NotBundled | Unreadable | Contents(text: string)

  /** Why `parseCSV` returned nil. */
  datatype ParseFailure =
    | FileNotFound
    | ReadFailed
    | EmptyFile
    | NoValidBooks(errors: seq<RowError>)

  const ColumnCount: nat := 12
  const Int64Min: int := -0x8000_0000_0000_0000
  const Int64Max: int := 0x7FFF_FFFF_FFFF_FFFF

  // ---------------------------------------------------------------------------
  // Integer fields: Swift's `Int(_: String)`

  /** `Int(s)`: an optional sign and at least one decimal digit, within the 64-bit range. */
  function ParseInt(s: string): (r: Option<int>)
    ensures r.Some? ==> Int64Min <= r.value <= Int64Max
  {
    var digits := if |s| > 0 && (s[0] == '-' || s[0] == '+') then s[1..] else s;
    if digits == [] || !AllDigits(digits) then None
    else
      var v: int := if s[0] == '-' then -(DigitsValue(digits) as int) else DigitsValue(digits);
      if Int64Min <= v <= Int64Max then Some(v) else None
  }

  /** Round trip: a year or count written in decimal reads back as itself. */
  lemma ParseIntShowNat(n: nat)
    requires n <= Int64Max
    ensures ParseInt(ShowNat(n)) == Some(n)
  {
    DigitsOfShowNat(n);
  }

  // ---------------------------------------------------------------------------
  // Lines: `contents.components(separatedBy: "\n").filter { !$0.isEmpty }`

  /** `s.components(separatedBy: "\n")`. */
  function Lines(s: string): (r: seq<string>)
    ensures |r| >= 1
    ensures forall l :: l in r ==> '\n' !in l
  {
    if s == [] then [""]
    else
      var rest := Lines(s[1..]);
      if s[0] == '\n' then [""] + rest else [[s[0]] + rest[0]] + rest[1..]
  }

  /** Round trip: joining the lines with a newline gives the text back. */
  lemma {:induction false} LinesJoin(s: string)
    ensures Join(Lines(s), '\n') == s
  {
    if s != [] {
      LinesJoin(s[1..]);
      var rest := Lines(s[1..]);
      if s[0] != '\n' && |rest| > 1 {
        assert ([[s[0]] + rest[0]] + rest[1..])[1..] == rest[1..];
      }
    }
  }

  /** The non-empty lines of the file: the header first, then the data rows. */
  function NonEmptyLines(text: string): seq<string>
  {
    Filter(Lines(text), (l: string) => l != [])
  }

  // ---------------------------------------------------------------------------
  // Row decoding (availablebooks.swift:201-238)

  function Unquoted(column: string): string
  {
    Trim(column, '"')
  }

  /** A text column with a placeholder when empty. */
  function TextOr(column: string, default: string): string
  {
    if column == [] then default else Unquoted(column)
  }

  function OptionalText(column: string): Option<string>
  {
    if column == [] then None else Some(Unquoted(column))
  }

  function OptionalInt(column: string): Option<int>
  {
    if column == [] then None else ParseInt(column)
  }

  /** The book a row with at least 12 columns describes. */
  function BookOf(columns: seq<string>): CsvBook
    requires |columns| >= ColumnCount
  {
    CsvBook(
      Unquoted(columns[0]), TextOr(columns[1], "Unknown"), TextOr(columns[2], "Unknown"),
      OptionalText(columns[3]), TextOr(columns[4], "Unknown"),
      OptionalText(columns[5]), OptionalText(columns[6]),
      OptionalInt(columns[7]), OptionalText(columns[8]),
      OptionalText(columns[10]), OptionalInt(columns[11]),
      Lower(TextOr(columns[9], "Yes")) == "yes")
  }

  /** Decodes the split columns of data row number `row`. */
  function DecodeRow(columns: seq<string>, row: nat): RowOutcome
  {
    if |columns| >= ColumnCount then
      var book := BookOf(columns);
      if columns[0] != [] && book.title != "Unknown" && book.author != "Unknown" then Accepted(book)
      else Rejected(MissingRequired(row))
    else Rejected(InsufficientColumns(row, |columns|))
  }

  /**
    On columns produced by `splitCSV` (which carry no quotes, so trimming quotes is a
    no-op), a row is accepted exactly when it has at least 12 columns, a book id, and a
    title and author that are neither empty nor the literal "Unknown"; the book then
    holds those columns, and it is available exactly when the is_available column is
    empty (read as "Yes") or lower-cases to "yes".
   */
  lemma DecodeRowOfSplitColumns(columns: seq<string>, row: nat)
    requires forall c :: c in columns ==> '"' !in c
    ensures DecodeRow(columns, row).Accepted? <==>
              |columns| >= ColumnCount && columns[0] != [] &&
              columns[1] != [] && columns[1] != "Unknown" &&
              columns[2] != [] && columns[2] != "Unknown"
    ensures DecodeRow(columns, row).Accepted? ==>
              var b := DecodeRow(columns, row).book;
              && b.id == columns[0] && b.title == columns[1] && b.author == columns[2]
              && (b.available <==> columns[9] == [] || Lower(columns[9]) == "yes")
    ensures |columns| < ColumnCount ==> DecodeRow(columns, row) == Rejected(InsufficientColumns(row, |columns|))
  {
    if |columns| >= ColumnCount {
      assert columns[0] in columns && columns[1] in columns && columns[2] in columns && columns[9] in columns;
      var b := BookOf(columns);
      assert b.id == columns[0];
      assert b.title == if columns[1] == [] then "Unknown" else columns[1];
      assert b.author == if columns[2] == [] then "Unknown" else columns[2];
      LowerYes();
      assert b.available <==> columns[9] == [] || Lower(columns[9]) == "yes";
    }
  }

  lemma LowerYes()
    ensures Lower("Yes") == "yes"
  {
    assert Lower("Yes")[0] == 'y';
  }

  /** The books and errors collected so far. */
  datatype Decoding = Decoding(books: seq<CsvBook>, errors: seq<RowError>)

  /** The outcome of each data row; rows are numbered from 1 after the header. */
  function RowOutcomes(rows: seq<string>): seq<RowOutcome>
  {
    seq(|rows|, i requires 0 <= i < |rows| => DecodeRow(Fields(rows[i]), i + 1))
  }

  /** Each accepted book appended to the books, each rejection to the errors, in row order. */
  function Tally(outcomes: seq<RowOutcome>): Decoding
  {
    if outcomes == [] then Decoding([], [])
    else
      var d := Tally(outcomes[..|outcomes| - 1]);
      match outcomes[|outcomes| - 1]
      case Accepted(b) => d.(books := d.books + [b])
      case Rejected(e) => d.(errors := d.errors + [e])
  }

  lemma TallySnoc(outcomes: seq<RowOutcome>, outcome: RowOutcome)
    ensures Tally(outcomes + [outcome]) ==
              match outcome
              case Accepted(b) => Tally(outcomes).(books := Tally(outcomes).books + [b])
              case Rejected(e) => Tally(outcomes).(errors := Tally(outcomes).errors + [e])
  {
    assert (outcomes + [outcome])[..|outcomes|] == outcomes;
  }

  /** The row's book is among the books, or its error among the errors. */
  predicate Recorded(outcome: RowOutcome, d: Decoding)
  {
    match outcome
    case Accepted(b) => b in d.books
    case Rejected(e) => e in d.errors
  }

  lemma {:induction false} TallyAccountsForEveryRow(outcomes: seq<RowOutcome>)
    ensures |Tally(outcomes).books| + |Tally(outcomes).errors| == |outcomes|
    ensures forall i :: 0 <= i < |outcomes| ==> Recorded(outcomes[i], Tally(outcomes))
    ensures forall b :: b in Tally(outcomes).books ==> Accepted(b) in outcomes
  {
    if outcomes != [] {
      var prefix := outcomes[..|outcomes| - 1];
      TallyAccountsForEveryRow(prefix);
      assert forall i :: 0 <= i < |prefix| ==> prefix[i] == outcomes[i];
    }
  }

  /** `parseCSV()` as a function of the bundled resource. */
  function Parse(source: CsvSource): Result<seq<CsvBook>, ParseFailure>
  {
    match source
    case NotBundled => Err(FileNotFound)
    case Unreadable => Err(ReadFailed)
    case Contents(text) =>
      var rows := NonEmptyLines(text);
      if rows == [] then Err(EmptyFile)
      else
        var d := Tally(RowOutcomes(rows[1..]));
        if d.books == [] && d.errors != [] then Err(NoValidBooks(d.errors)) else Ok(d.books)
  }

  /** `parseCSV()`: the loop over the data rows, splitting each with `splitCSV`. */
  method ParseCsv(source: CsvSource) returns (r: Result<seq<CsvBook>, ParseFailure>)
    ensures r == Parse(source)
  {
    match source {
      case NotBundled =>
        return Err(FileNotFound);
      case Unreadable =>
        return Err(ReadFailed);
      case Contents(text) =>
        var rows := NonEmptyLines(text);
        if rows == [] {
          return Err(EmptyFile);
        }
        var csvBooks, parseErrors := DecodeRows(rows[1..]);
        if csvBooks == [] && parseErrors != [] {
          return Err(NoValidBooks(parseErrors));
        }
        return Ok(csvBooks);
    }
  }

  /** The loop of `parseCSV` over the data rows: split each row, then keep its book or its error. */
  method DecodeRows(dataRows: seq<string>) returns (csvBooks: seq<CsvBook>, parseErrors: seq<RowError>)
    ensures Decoding(csvBooks, parseErrors) == Tally(RowOutcomes(dataRows))
  {
    ghost var outcomes := RowOutcomes(dataRows);
    csvBooks, parseErrors := [], [];
    for index := 0 to |dataRows|
      invariant Tally(outcomes[..index]) == Decoding(csvBooks, parseErrors)
    {
      var columns := SplitCsv(dataRows[index]);
      var outcome := DecodeRow(columns, index + 1);
      assert outcome == outcomes[index];
      assert outcomes[..index + 1] == outcomes[..index] + [outcome];
      TallySnoc(outcomes[..index], outcome);
      match outcome {
        case Accepted(book) =>
          csvBooks := csvBooks + [book];
        case Rejected(e) =>
          parseErrors := parseErrors + [e];
      }
    }
    assert outcomes[..|dataRows|] == outcomes;
  }

  /**
    Every data row ends up either as a book or as an error: the row at index `i`
    is accepted into the books or its error is recorded, and the counts add up.
   */
  lemma DecodedAccountsForEveryRow(rows: seq<string>)
    ensures var d := Tally(RowOutcomes(rows));
            && |d.books| + |d.errors| == |rows|
            && forall i :: 0 <= i < |rows| ==> Recorded(RowOutcomes(rows)[i], d)
  {
    TallyAccountsForEveryRow(RowOutcomes(rows));
  }

  /** A row split into fewer than 12 columns never yields a book; its error is recorded. */
  lemma ShortRowIsRecorded(rows: seq<string>, i: nat)
    requires i < |rows|
    requires |Fields(rows[i])| < ColumnCount
    ensures InsufficientColumns(i + 1, |Fields(rows[i])|) in Tally(RowOutcomes(rows)).errors
  {
    var outcomes := RowOutcomes(rows);
    var e := InsufficientColumns(i + 1, |Fields(rows[i])|);
    ShortRowRejected(Fields(rows[i]), i + 1);
    assert outcomes[i] == Rejected(e);
    RejectedRowIsRecorded(outcomes, i, e);
  }

  lemma RejectedRowIsRecorded(outcomes: seq<RowOutcome>, i: nat, e: RowError)
    requires i < |outcomes| && outcomes[i] == Rejected(e)
    ensures e in Tally(outcomes).errors
  {
    TallyAccountsForEveryRow(outcomes);
    assert Recorded(outcomes[i], Tally(outcomes));
  }

  lemma ShortRowRejected(columns: seq<string>, row: nat)
    requires |columns| < ColumnCount
    ensures DecodeRow(columns, row) == Rejected(InsufficientColumns(row, |columns|))
  {
  }

  /** Every book produced has a book id, and a title and author that are set and not "Unknown". */
  lemma DecodedBooksHaveRequiredFields(rows: seq<string>)
    ensures forall b :: b in Tally(RowOutcomes(rows)).books ==> HasRequiredFields(b)
  {
    TallyAccountsForEveryRow(RowOutcomes(rows));
    AcceptedRowsHaveRequiredFields(rows);
  }

  lemma AcceptedRowsHaveRequiredFields(rows: seq<string>)
    ensures forall b :: Accepted(b) in RowOutcomes(rows) ==> HasRequiredFields(b)
  {
    var outcomes := RowOutcomes(rows);
    forall b | Accepted(b) in outcomes
      ensures HasRequiredFields(b)
    {
      var i :| 0 <= i < |outcomes| && outcomes[i] == Accepted(b);
      AcceptedRowHasRequiredFields(rows[i], i + 1);
    }
  }

  predicate HasRequiredFields(b: CsvBook)
  {
    b.id != [] && b.title != [] && b.title != "Unknown" && b.author != [] && b.author != "Unknown"
  }

  lemma AcceptedRowHasRequiredFields(row: string, n: nat)
    ensures DecodeRow(Fields(row), n).Accepted? ==> HasRequiredFields(DecodeRow(Fields(row), n).book)
  {
    FieldsHaveNoQuotes(row);
    DecodeRowOfSplitColumns(Fields(row), n);
  }

  /**
    `parseCSV` fails on a missing or unreadable file, on a file without non-empty
    lines, and when there are data rows but none was accepted; the header alone
    parses to an empty list. On success the books are those decoded from the rows
    after the header.
   */
  lemma ParseOutcome(text: string)
    ensures var rows := NonEmptyLines(text);
            Parse(Contents(text)).Err? <==>
              rows == [] || (|rows| > 1 && Tally(RowOutcomes(rows[1..])).books == [])
    ensures var rows := NonEmptyLines(text);
            |rows| == 1 ==> Parse(Contents(text)) == Ok([])
    ensures var rows := NonEmptyLines(text);
            Parse(Contents(text)).Ok? ==> Parse(Contents(text)).value == Tally(RowOutcomes(rows[1..])).books
  {
    var rows := NonEmptyLines(text);
    ParseOfRows(text, rows);
    if rows != [] {
      TallyAccountsForEveryRow(RowOutcomes(rows[1..]));
    }
  }

  lemma ParseOfRows(text: string, rows: seq<string>)
    requires rows == NonEmptyLines(text)
    ensures rows == [] ==> Parse(Contents(text)) == Err(EmptyFile)
    ensures rows != [] ==>
              var d := Tally(RowOutcomes(rows[1..]));
              Parse(Contents(text)) == if d.books == [] && d.errors != [] then Err(NoValidBooks(d.errors)) else Ok(d.books)
  {
  }

  // ---------------------------------------------------------------------------
  // Filtering (availablebooks.swift:256-270)

  /** `{ $0.available }`. */
  function IsAvailable(): CsvBook -> bool
  {
    (b: CsvBook) => b.available
  }

  /** `{ $0.category.lowercased() == category.lowercased() }`. */
  function InCategory(category: string): CsvBook -> bool
  {
    (b: CsvBook) => Lower(b.category) == Lower(category)
  }

  /** The books `filterBooks` shows for a category and the "Available Only" toggle. */
  function ShownBooks(allBooks: seq<CsvBook>, category: string, availableOnly: bool): seq<CsvBook>
  {
    var afterAvailability := if availableOnly then Filter(allBooks, IsAvailable()) else allBooks;
    if category != "All" then Filter(afterAvailability, InCategory(category))
    else afterAvailability
  }

  /** Whether `filterBooks` keeps a book: available when the toggle is on, of the chosen category unless "All". */
  predicate Passes(book: CsvBook, category: string, availableOnly: bool)
  {
    (availableOnly ==> book.available) && (category != "All" ==> Lower(book.category) == Lower(category))
  }

  /**
    A book is shown iff it is in the list, is available when the toggle is on, and
    has the chosen category (ignoring case) unless "All" is chosen; a book that
    passes is shown as often as it occurs; with "All" and the toggle off the list
    is unchanged.
   */
  lemma ShownBooksSpec(allBooks: seq<CsvBook>, category: string, availableOnly: bool)
    ensures forall b :: b in ShownBooks(allBooks, category, availableOnly) <==>
              && b in allBooks
              && (availableOnly ==> b.available)
              && (category != "All" ==> Lower(b.category) == Lower(category))
    ensures forall b :: multiset(ShownBooks(allBooks, category, availableOnly))[b] ==
              if Passes(b, category, availableOnly) then multiset(allBooks)[b] else 0
    ensures category == "All" && !availableOnly ==> ShownBooks(allBooks, category, availableOnly) == allBooks
  {
  }

  /**
    The shown books keep the order of `allBooks`: the books shown for a list are
    those shown for its front followed by those shown for its back.
   */
  lemma ShownBooksKeepOrder(front: seq<CsvBook>, back: seq<CsvBook>, category: string, availableOnly: bool)
    ensures ShownBooks(front + back, category, availableOnly)
            == ShownBooks(front, category, availableOnly) + ShownBooks(back, category, availableOnly)
  {
    FilterAppend(front, back, IsAvailable());
    if availableOnly {
      FilterAppend(Filter(front, IsAvailable()), Filter(back, IsAvailable()), InCategory(category));
    } else {
      FilterAppend(front, back, InCategory(category));
    }
  }

  /** A single book is shown exactly when it passes; with `ShownBooksKeepOrder` this fixes the whole list. */
  lemma ShownBook(b: CsvBook, category: string, availableOnly: bool)
    ensures ShownBooks([b], category, availableOnly) == if Passes(b, category, availableOnly) then [b] else []
  {
    FilterSingleton(b, IsAvailable());
    FilterSingleton(b, InCategory(category));
    assert Filter([], InCategory(category)) == [];
  }

  // ---------------------------------------------------------------------------
  // Issuing (availablebooks.swift:315-330)

  /** `{ $0.id == id }`. */
  function HasId(id: string): CsvBook -> bool
  {
    (b: CsvBook) => b.id == id
  }

  /** The success branch of `issueBook`: the first book with the issued id is replaced by the issued book, unavailable. */
  function MarkIssued(allBooks: seq<CsvBook>, book: CsvBook): seq<CsvBook>
  {
    match FirstIndex(allBooks, HasId(book.id))
    case None => allBooks
    case Some(i) => allBooks[i := book.(available := false)]
  }

  /**
    When the `k`-th entry is the first with the issued book's id, only that entry
    changes: it becomes the issued book, unavailable. When that entry is the issued
    book itself, only its availability changes. Ids need not be unique: a later
    copy with the same id is never touched.
   */
  lemma MarkIssuedChangesOnlyThatBook(allBooks: seq<CsvBook>, book: CsvBook, k: nat)
    requires k < |allBooks| && allBooks[k].id == book.id
    requires forall j :: 0 <= j < k ==> allBooks[j].id != book.id
    ensures |MarkIssued(allBooks, book)| == |allBooks|
    ensures forall i :: 0 <= i < |allBooks| ==>
              MarkIssued(allBooks, book)[i] == if i == k then book.(available := false) else allBooks[i]
    ensures allBooks[k] == book ==> MarkIssued(allBooks, book)[k] == allBooks[k].(available := false)
  {
    FirstIndexIsFirstMatch(allBooks, HasId(book.id), k);
  }

  /**
    With two rows sharing an id, issuing the second one overwrites the first
    entry with the second book's data and leaves the second entry available.
   */
  lemma MarkIssuedDuplicateId(first: CsvBook, second: CsvBook)
    requires first.id == second.id
    ensures MarkIssued([first, second], second) == [second.(available := false), second]
  {
    FirstIndexIsFirstMatch([first, second], HasId(second.id), 0);
  }

  lemma MarkIssuedUnknownId(allBooks: seq<CsvBook>, book: CsvBook)
    requires forall i :: 0 <= i < |allBooks| ==> allBooks[i].id != book.id
    ensures MarkIssued(allBooks, book) == allBooks
  {
  }

  /** What the backend did with an issue request. */
  datatype IssueOutcome =
    | BookWriteFailed(description: string)
    | IssueRecordFailed(description: string)
    | IssueRecorded

  /** The screen's state (`AvailableBooksView`'s `@State` properties). */
  class AvailableBooksView {
    var books: seq<CsvBook>
    var allBooks: seq<CsvBook>
    var selectedCategory: string
    var isAvailableOnly: bool
    var isLoading: bool
    var errorMessage: string
    var showAlert: bool
    var alertMessage: string

    constructor ()
      ensures books == [] && allBooks == []
      ensures selectedCategory == "All" && !isAvailableOnly
      ensures isLoading && errorMessage == "" && !showAlert && alertMessage == ""
    {
      books, allBooks := [], [];
      selectedCategory, isAvailableOnly := "All", false;
      isLoading, errorMessage := true, "";
      showAlert, alertMessage := false, "";
    }

    /** `filterBooks()`. */
    method FilterBooks()
      modifies this`books
      ensures books == ShownBooks(allBooks, selectedCategory, isAvailableOnly)
    {
      var filteredBooks := allBooks;
      if isAvailableOnly {
        filteredBooks := Filter(filteredBooks, IsAvailable());
      }
      if selectedCategory != "All" {
        filteredBooks := Filter(filteredBooks, InCategory(selectedCategory));
      }
      books := filteredBooks;
    }

    /** The category picker changed (`onChange(of: selectedCategory)`). */
    method SelectCategory(category: string)
      modifies this`selectedCategory, this`books
      ensures selectedCategory == category
      ensures books == ShownBooks(allBooks, category, isAvailableOnly)
    {
      selectedCategory := category;
      FilterBooks();
    }

    /** The "Available Only" toggle changed (`onChange(of: isAvailableOnly)`). */
    method SetAvailableOnly(on: bool)
      modifies this`isAvailableOnly, this`books
      ensures isAvailableOnly == on
      ensures books == ShownBooks(allBooks, selectedCategory, on)
    {
      isAvailableOnly := on;
      FilterBooks();
    }

    /** `loadBooks()`: parse the dataset, then show it through the current filters. */
    method LoadBooks(source: CsvSource)
      modifies this`isLoading, this`allBooks, this`books, this`errorMessage
      ensures !isLoading
      ensures Parse(source).Ok? ==>
                && allBooks == Parse(source).value
                && books == ShownBooks(allBooks, selectedCategory, isAvailableOnly)
                && errorMessage == old(errorMessage)
      ensures Parse(source).Err? ==>
                && errorMessage == "Failed to load CSV file. Check file name or format."
                && allBooks == old(allBooks) && books == old(books)
    {
      isLoading := true;
      var parsed := ParseCsv(source);
      match parsed {
        case Ok(csvBooks) =>
          allBooks := csvBooks;
          books := csvBooks;
          isLoading := false;
          FilterBooks();
        case Err(_) =>
          errorMessage := "Failed to load CSV file. Check file name or format.";
          isLoading := false;
      }
    }

    /** `issueBook(book:)` with the backend's answer given as `outcome`. */
    method IssueBook(book: CsvBook, signedIn: bool, outcome: IssueOutcome)
      modifies this`allBooks, this`books, this`alertMessage, this`showAlert
      ensures showAlert
      ensures !signedIn ==> alertMessage == "No user logged in"
      ensures signedIn && outcome.BookWriteFailed? ==>
                alertMessage == "Failed to issue book: " + outcome.description
      ensures signedIn && outcome.IssueRecordFailed? ==>
                alertMessage == "Failed to record issue: " + outcome.description
      ensures signedIn && outcome == IssueRecorded ==>
                && allBooks == MarkIssued(old(allBooks), book)
                && books == ShownBooks(allBooks, selectedCategory, isAvailableOnly)
                && alertMessage == "Book '" + book.title + "' issued successfully"
      ensures !(signedIn && outcome == IssueRecorded) ==> allBooks == old(allBooks) && books == old(books)
    {
      if !signedIn {
        alertMessage := "No user logged in";
        showAlert := true;
        return;
      }
      match outcome {
        case BookWriteFailed(description) =>
          alertMessage := "Failed to issue book: " + description;
          showAlert := true;
        case IssueRecordFailed(description) =>
          alertMessage := "Failed to record issue: " + description;
          showAlert := true;
        case IssueRecorded =>
          var index := FirstIndex(allBooks, HasId(book.id));
          if index.Some? {
            allBooks := allBooks[index.value := book.(available := false)];
          }
          FilterBooks();
          alertMessage := "Book '" + book.title + "' issued successfully";
          showAlert := true;
      }
    }
  }
}
