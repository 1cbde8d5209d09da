/**
  The librarian's members screen (`MembersView` in Lib1/Lib1/LibrarianDashboardView.swift):
  how member records are built from user documents and their issued-book records,
  the name / member-ID search, and the guarded extend and revoke actions, whose
  only status change is "active" to "inactive".
 */
module Members {

  import opened Wrappers
  import opened Text
  import opened Sequences

  datatype BorrowedBook = BorrowedBook(bookId: string, title: string, author: string)

  /** `MembersView.Member`; dates are points in time, here integers. */
  datatype Member = Member(
    id: string,
    memberId: string,
    name: string,
    joinedDate: int,
    expiryDate: int,
    borrowedBooks: seq<BorrowedBook>,
    status: string)

  /** A stored document field, as far as `as? String` and `as? Timestamp` can tell. */
  datatype FieldValue = StringValue(text: string) | TimestampValue(date: int) | OtherValue

  type Data = map<string, FieldValue>

  /** `data[key] as? String`. */
  function StringField(data: Data, key: string): Option<string>
  {
    if key in data && data[key].StringValue? then Some(data[key].text) else None
  }

  /** `(data[key] as? Timestamp)?.dateValue()`. */
  function DateField(data: Data, key: string): Option<int>
  {
    if key in data && data[key].TimestampValue? then Some(data[key].date) else None
  }

  datatype MemberDocument = MemberDocument(documentId: string, data: Data)

  /** The result of the per-member query for issued books: an error, or the documents (none if the snapshot is missing). */
  datatype IssuedQuery = IssuedError(description: string) | IssuedDocuments(documents: Option<seq<Data>>)

  // ---------------------------------------------------------------------------
  // Record derivation (LibrarianDashboardView.swift:477-525)

  /** `"M\(documentID.prefix(8))"`. */
  function MemberIdOf(documentId: string): (r: string)
    ensures |r| >= 1 && r[0] == 'M'
    ensures r[1..] <= documentId
    ensures |r| == 1 + if |documentId| < 8 then |documentId| else 8
  {
    "M" + (if |documentId| <= 8 then documentId else documentId[..8])
  }

  /** An issued-book document counts only when its book id, title and author are all strings. */
  function BorrowedBookOf(data: Data): Option<BorrowedBook>
  {
    match (StringField(data, "bookId"), StringField(data, "title"), StringField(data, "author"))
    case (Some(bookId), Some(title), Some(author)) => Some(BorrowedBook(bookId, title, author))
    case _ => None
  }

  /** The borrowed books collected from issued-book documents: one per valid document, in order. */
  function ValidIssues(documents: seq<Data>): (r: seq<BorrowedBook>)
    ensures |r| == |Filter(documents, (d: Data) => BorrowedBookOf(d).Some?)|
    ensures forall b :: b in r <==> exists i :: 0 <= i < |documents| && BorrowedBookOf(documents[i]) == Some(b)
  {
    CompactMapMembers(documents, BorrowedBookOf);
    CompactMapCount(documents, BorrowedBookOf);
    FilterSameTest(documents, Yields(BorrowedBookOf), (d: Data) => BorrowedBookOf(d).Some?);
    CompactMap(documents, BorrowedBookOf)
  }

  /** The borrowed books a member ends up with: none when the query failed or found nothing. */
  function BorrowedOf(query: IssuedQuery): seq<BorrowedBook>
  {
    if query.IssuedDocuments? && query.documents.Some? then ValidIssues(query.documents.value) else []
  }

  /**
    The member record built from one user document, or none when the document has
    no string "name". Missing dates default to `now`, a missing status to "active".
   */
  function MemberOf(document: MemberDocument, now: int, issued: IssuedQuery): (r: Option<Member>)
    ensures r.None? <==> StringField(document.data, "name").None?
    ensures r.Some? ==>
              && r.value.id == document.documentId
              && Some(r.value.name) == StringField(document.data, "name")
              && r.value.memberId == MemberIdOf(document.documentId)
              && r.value.status == (if StringField(document.data, "status").Some? then StringField(document.data, "status").value else "active")
              && r.value.joinedDate == (if DateField(document.data, "joinedDate").Some? then DateField(document.data, "joinedDate").value else now)
              && r.value.expiryDate == (if DateField(document.data, "expiryDate").Some? then DateField(document.data, "expiryDate").value else now)
              && r.value.borrowedBooks == BorrowedOf(issued)
              && (issued.IssuedError? ==> r.value.borrowedBooks == [])
  {
    match StringField(document.data, "name")
    case None => None
    case Some(name) =>
      var joinedDate := match DateField(document.data, "joinedDate") case Some(d) => d case None => now;
      var expiryDate := match DateField(document.data, "expiryDate") case Some(d) => d case None => now;
      var status := match StringField(document.data, "status") case Some(s) => s case None => "active";
      Some(Member(document.documentId, MemberIdOf(document.documentId), name, joinedDate, expiryDate, BorrowedOf(issued), status))
  }

  /** Whether a user document has a string "name", the one field a record cannot do without. */
  predicate HasName(document: MemberDocument)
  {
    StringField(document.data, "name").Some?
  }

  /** The issued-books callback's record for one user document. */
  function RecordOf(now: int, issuedFor: string -> IssuedQuery): MemberDocument -> Option<Member>
  {
    (d: MemberDocument) => MemberOf(d, now, issuedFor(d.documentId))
  }

  lemma RecordIffNamed(now: int, issuedFor: string -> IssuedQuery)
    ensures forall d :: Yields(RecordOf(now, issuedFor))(d) == HasName(d)
  {
    forall d
      ensures Yields(RecordOf(now, issuedFor))(d) == HasName(d)
    {
      var r := MemberOf(d, now, issuedFor(d.documentId));
      assert RecordOf(now, issuedFor)(d) == r;
    }
  }

  /** `tempMembers` after every issued-books callback has run: one record per named document, in document order. */
  function Collected(documents: seq<MemberDocument>, now: int, issuedFor: string -> IssuedQuery): (r: seq<Member>)
    ensures |r| == |Filter(documents, HasName)|
    ensures forall m :: m in r <==>
              exists i :: 0 <= i < |documents| && MemberOf(documents[i], now, issuedFor(documents[i].documentId)) == Some(m)
  {
    var record := RecordOf(now, issuedFor);
    CompactMapMembers(documents, record);
    CompactMapCount(documents, record);
    RecordIffNamed(now, issuedFor);
    FilterSameTest(documents, Yields(record), HasName);
    CompactMap(documents, record)
  }

  /** The inner loop over issued-book documents. */
  method CollectBorrowed(documents: seq<Data>) returns (borrowedBooks: seq<BorrowedBook>)
    ensures borrowedBooks == ValidIssues(documents)
  {
    borrowedBooks := [];
    for i := 0 to |documents|
      invariant borrowedBooks == CompactMap(documents[..i], BorrowedBookOf)
    {
      assert documents[..i + 1][..i] == documents[..i];
      CompactMapLast(documents[..i + 1], BorrowedBookOf);
      match BorrowedBookOf(documents[i]) {
        case Some(b) =>
          borrowedBooks := borrowedBooks + [b];
        case None =>
      }
    }
    assert documents[..|documents|] == documents;
  }

  /** The outer loop over user documents, skipping those without a name. */
  method BuildMembers(documents: seq<MemberDocument>, now: int, issuedFor: string -> IssuedQuery)
    returns (tempMembers: seq<Member>)
    ensures tempMembers == Collected(documents, now, issuedFor)
  {
    tempMembers := [];
    for i := 0 to |documents|
      invariant tempMembers == Collected(documents[..i], now, issuedFor)
    {
      assert documents[..i + 1][..i] == documents[..i];
      CompactMapLast(documents[..i + 1], RecordOf(now, issuedFor));
      var document := documents[i];
      assert RecordOf(now, issuedFor)(document) == MemberOf(document, now, issuedFor(document.documentId));
      var name := StringField(document.data, "name");
      if name.Some? {
        var joinedDate := if DateField(document.data, "joinedDate").Some? then DateField(document.data, "joinedDate").value else now;
        var expiryDate := if DateField(document.data, "expiryDate").Some? then DateField(document.data, "expiryDate").value else now;
        var status := if StringField(document.data, "status").Some? then StringField(document.data, "status").value else "active";
        var memberId := MemberIdOf(document.documentId);
        var borrowedBooks := [];
        var issued := issuedFor(document.documentId);
        if issued.IssuedDocuments? && issued.documents.Some? {
          borrowedBooks := CollectBorrowed(issued.documents.value);
        }
        tempMembers := tempMembers + [Member(document.documentId, memberId, name.value, joinedDate, expiryDate, borrowedBooks, status)];
      }
    }
    assert documents[..|documents|] == documents;
  }

  /** `$0.name.lowercased() < $1.name.lowercased()`. */
  function NameBefore(): (Member, Member) -> bool
  {
    (a: Member, b: Member) => LexLess(Lower(a.name), Lower(b.name))
  }

  lemma NameBeforeIsStrictWeakOrder()
    ensures StrictWeakOrder(NameBefore())
  {
    forall a: Member, b: Member, c: Member
      ensures LexLess(Lower(a.name), Lower(b.name)) ==> !LexLess(Lower(b.name), Lower(a.name))
      ensures !LexLess(Lower(b.name), Lower(a.name)) && !LexLess(Lower(c.name), Lower(b.name)) ==> !LexLess(Lower(c.name), Lower(a.name))
    {
      LexLessIsStrictWeakOrder(Lower(a.name), Lower(b.name), Lower(c.name));
    }
  }

  /** The members list a snapshot of user documents produces. */
  function Fetched(documents: seq<MemberDocument>, now: int, issuedFor: string -> IssuedQuery): seq<Member>
  {
    SortBy(Collected(documents, now, issuedFor), NameBefore())
  }

  /**
    The members list holds exactly the records of the documents that have a name,
    with one record per such document, ordered by lower-cased name; records whose
    names agree once lower-cased keep the order they were collected in.
   */
  lemma FetchedSpec(documents: seq<MemberDocument>, now: int, issuedFor: string -> IssuedQuery)
    ensures var r := Fetched(documents, now, issuedFor);
            forall m :: m in r <==>
              exists i :: 0 <= i < |documents| && MemberOf(documents[i], now, issuedFor(documents[i].documentId)) == Some(m)
    ensures var r := Fetched(documents, now, issuedFor);
            forall m :: m in r ==> m.memberId == MemberIdOf(m.id)
    ensures |Fetched(documents, now, issuedFor)| == |Filter(documents, HasName)|
    ensures (forall i :: 0 <= i < |documents| ==> StringField(documents[i].data, "name").None?) ==>
              Fetched(documents, now, issuedFor) == []
    ensures var r := Fetched(documents, now, issuedFor);
            forall i, j :: 0 <= i < j < |r| ==> !LexLess(Lower(r[j].name), Lower(r[i].name))
    ensures forall y :: Filter(Fetched(documents, now, issuedFor), Tied(NameBefore(), y)) ==
                        Filter(Collected(documents, now, issuedFor), Tied(NameBefore(), y))
  {
    var temp := Collected(documents, now, issuedFor);
    var r := Fetched(documents, now, issuedFor);
    NameBeforeIsStrictWeakOrder();
    SortBySorted(temp, NameBefore());
    forall y
      ensures Filter(r, Tied(NameBefore(), y)) == Filter(temp, Tied(NameBefore(), y))
    {
      SortByStable(temp, NameBefore(), y);
    }
    forall m
      ensures m in r <==> m in temp
    {
      assert m in r <==> multiset(r)[m] > 0;
      assert m in temp <==> multiset(temp)[m] > 0;
    }
    if forall i :: 0 <= i < |documents| ==> StringField(documents[i].data, "name").None? {
      if r != [] {
        assert r[0] in temp;
      }
    }
  }

  // ---------------------------------------------------------------------------
  // Search (LibrarianDashboardView.swift:169-178)

  predicate MatchesSearch(member: Member, searchText: string)
  {
    Contains(Lower(member.name), Lower(searchText)) || Contains(Lower(member.memberId), Lower(searchText))
  }

  /** `filteredMembers`. */
  function FilteredMembers(members: seq<Member>, searchText: string): seq<Member>
  {
    if searchText == [] then members else Filter(members, (m: Member) => MatchesSearch(m, searchText))
  }

  /**
    Empty search text shows every member as listed; otherwise exactly the members
    whose lower-cased name or member ID contains the lower-cased text, each as
    often as it is listed.
   */
  lemma FilteredMembersSpec(members: seq<Member>, searchText: string)
    ensures searchText == [] ==> FilteredMembers(members, searchText) == members
    ensures searchText != [] ==>
              forall m :: m in FilteredMembers(members, searchText) <==>
                m in members && (Contains(Lower(m.name), Lower(searchText)) || Contains(Lower(m.memberId), Lower(searchText)))
    ensures forall m :: multiset(FilteredMembers(members, searchText))[m] ==
              if searchText == [] || MatchesSearch(m, searchText) then multiset(members)[m] else 0
  {
  }

  // ---------------------------------------------------------------------------
  // Extend and revoke (LibrarianDashboardView.swift:541-641)

  /** How the remote write of an update ended. */
  datatype WriteOutcome = WriteFailed(description: string) | WriteSucceeded

  const PermissionDenied := "Permission denied. Contact support."

  /** The alert for a failed write: permission problems get their own message. */
  function FailureMessage(description: string, fallback: string): string
  {
    if Contains(description, "permission") then PermissionDenied else fallback
  }

  /** `{ $0.id == id }`. */
  function HasId(id: string): Member -> bool
  {
    (m: Member) => m.id == id
  }

  /** `members.firstIndex(where: { $0.id == member.id })`. */
  function IndexOfMember(members: seq<Member>, id: string): Option<nat>
  {
    FirstIndex(members, HasId(id))
  }

  /** `k` is the position of the first listed member with id `id`. */
  predicate FirstWithId(members: seq<Member>, id: string, k: nat)
  {
    k < |members| && members[k].id == id && forall j :: 0 <= j < k ==> members[j].id != id
  }

  /** The list and the alert an action leaves behind. */
  datatype Update = Update(members: seq<Member>, alert: string)

  /**
    `extendMembership(for:)` once its write has completed; `addYear` is the
    calendar's "one year later" (`nil` when it cannot compute the date), applied to
    the member's expiry date, and `formatDate` the medium-style date formatter.
   */
  function Extension(members: seq<Member>, member: Member, addYear: int -> Option<int>, write: WriteOutcome,
                     formatDate: int -> string): Update
  {
    if member.status != "active" then
      Update(members, "Cannot extend membership. " + member.name + "'s membership is " + member.status + ".")
    else match IndexOfMember(members, member.id)
      case None => Update(members, "Member not found")
      case Some(index) =>
        match addYear(member.expiryDate)
        case None => Update(members, "Failed to calculate new expiry date")
        case Some(newExpiry) =>
          match write
          case WriteFailed(description) =>
            Update(members, FailureMessage(description, "Failed to extend membership. Try again."))
          case WriteSucceeded =>
            Update(members[index := member.(expiryDate := newExpiry)],
                   "Membership extended for " + member.name + " until " + formatDate(newExpiry))
  }

  /** `revokeMembership(for:)` once its write has completed; `now` is the current date. */
  function Revocation(members: seq<Member>, member: Member, now: int, write: WriteOutcome): Update
  {
    if member.status != "active" then
      Update(members, "Cannot revoke membership. " + member.name + "'s membership is already " + member.status + ".")
    else match IndexOfMember(members, member.id)
      case None => Update(members, "Member not found")
      case Some(index) =>
        if member.borrowedBooks != [] then
          Update(members, "Cannot revoke membership. " + member.name + " has " + ShowNat(|member.borrowedBooks|) + " borrowed book(s).")
        else match write
          case WriteFailed(description) =>
            Update(members, FailureMessage(description, "Failed to revoke membership. Try again."))
          case WriteSucceeded =>
            Update(members[index := member.(expiryDate := now, status := "inactive")], "Membership revoked for " + member.name)
  }

  /**
    Every refused or failed action leaves the list unchanged: a member who is not
    active, a member not in the list, a missing new expiry date, borrowed books
    (revocation only) and a failed write. Each refusal raises its own alert: a
    non-active member is named with its status, a missing member is reported as
    such, a revocation refused for borrowed books gives their number, and a failed
    write reports a permission problem or the action's generic failure.
   */
  lemma RefusalsChangeNothing(members: seq<Member>, member: Member, addYear: int -> Option<int>, now: int,
                              write: WriteOutcome, formatDate: int -> string)
    ensures var ext := Extension(members, member, addYear, write, formatDate);
            var rev := Revocation(members, member, now, write);
            && (member.status != "active" ==>
                  && ext == Update(members, "Cannot extend membership. " + member.name + "'s membership is " + member.status + ".")
                  && rev == Update(members, "Cannot revoke membership. " + member.name + "'s membership is already " + member.status + "."))
            && ((forall i :: 0 <= i < |members| ==> members[i].id != member.id) ==>
                  && ext.members == members && rev.members == members
                  && (member.status == "active" ==> ext.alert == "Member not found" && rev.alert == "Member not found"))
            && (addYear(member.expiryDate).None? ==> ext.members == members)
            && (member.borrowedBooks != [] ==> rev.members == members)
            && (write.WriteFailed? ==> ext.members == members && rev.members == members)
    ensures var ext := Extension(members, member, addYear, write, formatDate);
            var rev := Revocation(members, member, now, write);
            member.status == "active" && (exists i :: 0 <= i < |members| && members[i].id == member.id) ==>
              && (addYear(member.expiryDate).None? ==> ext.alert == "Failed to calculate new expiry date")
              && (addYear(member.expiryDate).Some? && write.WriteFailed? ==>
                    ext.alert == FailureMessage(write.description, "Failed to extend membership. Try again."))
              && (member.borrowedBooks != [] ==>
                    rev.alert == "Cannot revoke membership. " + member.name + " has " + ShowNat(|member.borrowedBooks|) + " borrowed book(s).")
              && (member.borrowedBooks == [] && write.WriteFailed? ==>
                    rev.alert == FailureMessage(write.description, "Failed to revoke membership. Try again."))
  {
    ExtensionRefusals(members, member, addYear, write, formatDate);
    RevocationRefusals(members, member, now, write);
  }

  lemma ExtensionRefusals(members: seq<Member>, member: Member, addYear: int -> Option<int>, write: WriteOutcome,
                          formatDate: int -> string)
    ensures var ext := Extension(members, member, addYear, write, formatDate);
            && (member.status != "active" ==>
                  ext == Update(members, "Cannot extend membership. " + member.name + "'s membership is " + member.status + "."))
            && ((forall i :: 0 <= i < |members| ==> members[i].id != member.id) ==>
                  ext.members == members && (member.status == "active" ==> ext.alert == "Member not found"))
            && (addYear(member.expiryDate).None? || write.WriteFailed? ==> ext.members == members)
            && (member.status == "active" && IndexOfMember(members, member.id).Some? ==>
                  && (addYear(member.expiryDate).None? ==> ext.alert == "Failed to calculate new expiry date")
                  && (addYear(member.expiryDate).Some? && write.WriteFailed? ==>
                        ext.alert == FailureMessage(write.description, "Failed to extend membership. Try again.")))
  {
  }

  lemma RevocationRefusals(members: seq<Member>, member: Member, now: int, write: WriteOutcome)
    ensures var rev := Revocation(members, member, now, write);
            && (member.status != "active" ==>
                  rev == Update(members, "Cannot revoke membership. " + member.name + "'s membership is already " + member.status + "."))
            && ((forall i :: 0 <= i < |members| ==> members[i].id != member.id) ==>
                  rev.members == members && (member.status == "active" ==> rev.alert == "Member not found"))
            && (member.borrowedBooks != [] || write.WriteFailed? ==> rev.members == members)
            && (member.status == "active" && IndexOfMember(members, member.id).Some? ==>
                  && (member.borrowedBooks != [] ==>
                        rev.alert == "Cannot revoke membership. " + member.name + " has " + ShowNat(|member.borrowedBooks|) + " borrowed book(s).")
                  && (member.borrowedBooks == [] && write.WriteFailed? ==>
                        rev.alert == FailureMessage(write.description, "Failed to revoke membership. Try again.")))
  {
  }

  /**
    A successful extension replaces only the member's entry, by the given record
    with its expiry date moved one calendar year on; every other entry stays as it
    was. With a calendar that moves every date forward, the new expiry is later.
   */
  lemma ExtensionSuccess(members: seq<Member>, member: Member, k: nat, addYear: int -> Option<int>,
                         formatDate: int -> string)
    requires FirstWithId(members, member.id, k) && member.status == "active"
    requires addYear(member.expiryDate).Some?
    ensures (forall d :: addYear(d).Some? ==> addYear(d).value > d) ==>
              Extension(members, member, addYear, WriteSucceeded, formatDate).members[k].expiryDate > member.expiryDate
    ensures var newExpiry := addYear(member.expiryDate).value;
            var r := Extension(members, member, addYear, WriteSucceeded, formatDate);
            && |r.members| == |members|
            && r.members[k] == member.(expiryDate := newExpiry)
            && (forall i :: 0 <= i < |members| && i != k ==> r.members[i] == members[i])
            && r.alert == "Membership extended for " + member.name + " until " + formatDate(newExpiry)
  {
    FirstIndexIsFirstMatch(members, HasId(member.id), k);
  }

  /**
    A successful revocation replaces only the member's entry, which becomes
    "inactive" with the current date as expiry; every other entry stays as it was.
   */
  lemma RevocationSuccess(members: seq<Member>, member: Member, k: nat, now: int)
    requires FirstWithId(members, member.id, k) && member.status == "active" && member.borrowedBooks == []
    ensures var r := Revocation(members, member, now, WriteSucceeded);
            && |r.members| == |members|
            && r.members[k] == member.(expiryDate := now, status := "inactive")
            && (forall i :: 0 <= i < |members| && i != k ==> r.members[i] == members[i])
            && r.alert == "Membership revoked for " + member.name
  {
    FirstIndexIsFirstMatch(members, HasId(member.id), k);
  }

  /**
    The status machine: revocation only ever writes "inactive" and extension only
    ever writes a record whose status is "active"; once the stored record is
    inactive, neither action changes the list again.
   */
  lemma StatusTransitions(members: seq<Member>, member: Member, k: nat, now: int, addYear: int -> Option<int>,
                          write: WriteOutcome, formatDate: int -> string)
    requires FirstWithId(members, member.id, k) && member.status == "active" && member.borrowedBooks == []
    ensures var after := Revocation(members, member, now, WriteSucceeded).members;
            && after[k].status == "inactive"
            && Extension(after, after[k], addYear, write, formatDate).members == after
            && Revocation(after, after[k], now, write).members == after
    ensures var ext := Extension(members, member, addYear, write, formatDate).members;
            || ext == members
            || (|ext| == |members| && (forall i :: 0 <= i < |members| && i != k ==> ext[i] == members[i]) && ext[k].status == "active")
  {
    RevocationSuccess(members, member, k, now);
    if addYear(member.expiryDate).Some? && write.WriteSucceeded? {
      ExtensionSuccess(members, member, k, addYear, formatDate);
    }
  }

  // ---------------------------------------------------------------------------
  // The screen's state

  /** How the lookup of the signed-in user's role ended; `None` when there is no document or no string role. */
  datatype RoleLookup = RoleLookupFailed(description: string) | RoleFound(role: Option<string>)

  /** What the members listener receives: an error, or the documents (none if the snapshot is missing). */
  datatype MembersEvent = MembersListenerError(description: string) | MembersSnapshot(documents: Option<seq<MemberDocument>>)

  const NoValidMembersMessage := "No valid members found. Ensure member documents have a 'name' field."

  class MembersView {
    var members: seq<Member>
    var isLoading: bool
    var errorMessage: string
    var searchText: string
    var showAlert: bool
    var alertMessage: string
    var isUpdating: bool

    constructor ()
      ensures members == [] && isLoading && errorMessage == "" && searchText == ""
      ensures !showAlert && alertMessage == "" && !isUpdating
    {
      members := [];
      isLoading := true;
      errorMessage := "";
      searchText := "";
      showAlert := false;
      alertMessage := "";
      isUpdating := false;
    }

    function Filtered(): seq<Member>
      reads this
    {
      FilteredMembers(members, searchText)
    }

    /**
      `fetchMembers()` with the role lookup, the listener delivery and every
      issued-books query in hand. Only librarians and admins get past the role
      check; the list is replaced only by a snapshot with documents.
     */
    method FetchMembers(signedIn: bool, role: RoleLookup, event: MembersEvent, now: int, issuedFor: string -> IssuedQuery)
      modifies this`members, this`isLoading, this`errorMessage
      ensures !isLoading
      ensures !signedIn ==> members == old(members) && errorMessage == "Please log in to view members"
      ensures signedIn && role.RoleLookupFailed? ==>
                members == old(members) && errorMessage == "Failed to fetch user role: " + role.description
      ensures signedIn && role.RoleFound? && role.role != Some("Librarian") && role.role != Some("Admin") ==>
                members == old(members) && errorMessage == "You do not have permission to view members"
      ensures signedIn && role.RoleFound? && (role.role == Some("Librarian") || role.role == Some("Admin")) ==>
                match event
                case MembersListenerError(description) =>
                  members == old(members)
                  && errorMessage == FailureMessage(description, "Failed to fetch members. Try again.")
                case MembersSnapshot(None) =>
                  members == old(members) && errorMessage == "No members found in users collection"
                case MembersSnapshot(Some(documents)) =>
                  members == Fetched(documents, now, issuedFor)
                  && errorMessage == (if members == [] then NoValidMembersMessage else "")
    {
      if !signedIn {
        errorMessage := "Please log in to view members";
        isLoading := false;
        return;
      }
      match role {
        case RoleLookupFailed(description) =>
          errorMessage := "Failed to fetch user role: " + description;
          isLoading := false;
          return;
        case RoleFound(r) =>
          if !(r == Some("Librarian") || r == Some("Admin")) {
            errorMessage := "You do not have permission to view members";
            isLoading := false;
            return;
          }
      }
      isLoading := true;
      errorMessage := "";
      match event {
        case MembersListenerError(description) =>
          errorMessage := FailureMessage(description, "Failed to fetch members. Try again.");
          isLoading := false;
        case MembersSnapshot(None) =>
          errorMessage := "No members found in users collection";
          isLoading := false;
        case MembersSnapshot(Some(documents)) =>
          var tempMembers := BuildMembers(documents, now, issuedFor);
          members := SortBy(tempMembers, NameBefore());
          isLoading := false;
          if members == [] {
            errorMessage := NoValidMembersMessage;
          }
      }
    }

    /** `extendMembership(for:)`: every exit raises the alert and clears `isUpdating`. */
    method ExtendMembership(member: Member, addYear: int -> Option<int>, write: WriteOutcome, formatDate: int -> string)
      modifies this`members, this`alertMessage, this`showAlert, this`isUpdating
      ensures Update(members, alertMessage) == Extension(old(members), member, addYear, write, formatDate)
      ensures showAlert && !isUpdating
    {
      isUpdating := true;
      if member.status != "active" {
        alertMessage := "Cannot extend membership. " + member.name + "'s membership is " + member.status + ".";
        showAlert := true;
        isUpdating := false;
        return;
      }
      var index := IndexOfMember(members, member.id);
      if index.None? {
        alertMessage := "Member not found";
        showAlert := true;
        isUpdating := false;
        return;
      }
      var nextExpiry := addYear(member.expiryDate);
      if nextExpiry.None? {
        alertMessage := "Failed to calculate new expiry date";
        showAlert := true;
        isUpdating := false;
        return;
      }
      match write {
        case WriteFailed(description) =>
          alertMessage := FailureMessage(description, "Failed to extend membership. Try again.");
          showAlert := true;
        case WriteSucceeded =>
          var updatedMember := member.(expiryDate := nextExpiry.value);
          members := members[index.value := updatedMember];
          alertMessage := "Membership extended for " + member.name + " until " + formatDate(nextExpiry.value);
          showAlert := true;
      }
      isUpdating := false;
    }

    /** `revokeMembership(for:)`: every exit raises the alert and clears `isUpdating`. */
    method RevokeMembership(member: Member, now: int, write: WriteOutcome)
      modifies this`members, this`alertMessage, this`showAlert, this`isUpdating
      ensures Update(members, alertMessage) == Revocation(old(members), member, now, write)
      ensures showAlert && !isUpdating
    {
      isUpdating := true;
      if member.status != "active" {
        alertMessage := "Cannot revoke membership. " + member.name + "'s membership is already " + member.status + ".";
        showAlert := true;
        isUpdating := false;
        return;
      }
      var index := IndexOfMember(members, member.id);
      if index.None? {
        alertMessage := "Member not found";
        showAlert := true;
        isUpdating := false;
        return;
      }
      if member.borrowedBooks != [] {
        alertMessage := "Cannot revoke membership. " + member.name + " has " + ShowNat(|member.borrowedBooks|) + " borrowed book(s).";
        showAlert := true;
        isUpdating := false;
        return;
      }
      var currentDate := now;
      match write {
        case WriteFailed(description) =>
          alertMessage := FailureMessage(description, "Failed to revoke membership. Try again.");
          showAlert := true;
        case WriteSucceeded =>
          var updatedMember := member.(expiryDate := currentDate, status := "inactive");
          members := members[index.value := updatedMember];
          alertMessage := "Membership revoked for " + member.name;
          showAlert := true;
      }
      isUpdating := false;
    }
  }
}
