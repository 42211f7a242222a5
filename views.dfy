/** The request handlers (library/views.py): each mutating endpoint is a
    module-level method that takes the `Store` and changes it in place, each
    read-only endpoint a query over its tables.
    `actor` is the primary key of the authenticated caller. */
module Views {
  import opened Prelude
  import opened Text
  import opened Models
  import opened Serializers

  /** The HTTP statuses the handlers answer with; `InternalServerError`
      stands for an exception the handler does not catch. */
  datatype Http = OK | Created | BadRequest | Forbidden | NotFound | InternalServerError

  // ---------------------------------------------------------------------
  // Role gates: the role is free text, compared after lower-casing
  // ---------------------------------------------------------------------

  /** The role reads `librarian` in any mix of letter case. */
  predicate IsLibrarian(role: string)
    ensures IsLibrarian(role) <==> |role| == 9 && forall i :: 0 <= i < 9 ==> LowerChar(role[i]) == "librarian"[i]
  {
    Lower(role) == "librarian"
  }

  /** The role reads `librarian` or `admin` in any mix of letter case. */
  predicate IsStaff(role: string)
    ensures IsStaff(role) <==>
              IsLibrarian(role) || (|role| == 5 && forall i :: 0 <= i < 5 ==> LowerChar(role[i]) == "admin"[i])
  {
    Lower(role) == "librarian" || Lower(role) == "admin"
  }

  /** The gates do not depend on letter case, and a librarian is staff. */
  lemma RoleGatesIgnoreCase(role: string)
    ensures IsStaff(role) <==> IsStaff(Lower(role))
    ensures IsLibrarian(role) <==> IsLibrarian(Lower(role))
    ensures IsLibrarian(role) ==> IsStaff(role)
  {
    LowerIdempotent(role);
  }

  /** Mixed-case spellings pass; a newly registered account does not. */
  lemma RoleExamples()
    ensures IsStaff("Librarian") && IsStaff("ADMIN") && IsLibrarian("LibRarian")
    ensures !IsStaff(NewUser("u", "u@x").role)
  {
    assert Lower("Librarian") == "librarian";
    assert Lower("ADMIN") == "admin";
    assert Lower("LibRarian") == "librarian";
    assert Lower(DEFAULT_ROLE) == "member";
  }

  // ---------------------------------------------------------------------
  // Borrowing, reserving, returning
  // ---------------------------------------------------------------------

  /** The `due_date` field of a borrow request: absent, a parsed date, or
      text that does not parse as YYYY-MM-DD. */
  datatype DueDateParam = NoDueDate | DueOn(at: int) | Malformed

  function DueOf(p: DueDateParam): Option<int> {
    if p.DueOn? then Some(p.at) else None
  }

  /** `BorrowBookView.post`. A librarian issues to the user named by
      `userId` (`None` when missing or empty); anyone else borrows for
      themself. The view refuses when no copy is available, then stores the
      loan, whose save hook takes another copy off `quantity`. */
  method BorrowBook(db: Store, actor: nat, bookId: nat, userId: Option<nat>,
                    dueDate: DueDateParam, now: int)
    returns (resp: Http, loan: Option<nat>)
    requires db.Valid() && actor < |db.users|
    modifies db
    ensures db.Valid()
    ensures db.users == old(db.users) && db.reservations == old(db.reservations)
    ensures db.requests == old(db.requests)
    ensures resp ==
              if bookId >= |old(db.books)| then NotFound
              else if IsLibrarian(old(db.users[actor].role)) && userId.None? then BadRequest
              else if IsLibrarian(old(db.users[actor].role)) && userId.value >= |old(db.users)| then NotFound
              else if old(AvailableCopies(db.books, db.loans, bookId)) <= 0 then BadRequest
              else if dueDate.Malformed? then BadRequest
              else Created
    ensures resp != Created ==> db.books == old(db.books) && db.loans == old(db.loans) && loan.None?
    ensures resp == Created ==>
              var target := if IsLibrarian(old(db.users[actor].role)) then userId.value else actor;
              && loan == Some(|old(db.loans)|)
              && db.loans == old(db.loans) + [NewLoan(target, bookId, now, DueOf(dueDate))]
              && db.books == Adjust(old(db.books), bookId, -1)
    // only a librarian can put a loan in someone else's name
    ensures resp == Created && db.loans[loan.value].user != actor ==>
              IsLibrarian(old(db.users[actor].role))
    // borrowing costs the book two available copies
    ensures resp == Created ==>
              AvailableCopies(db.books, db.loans, bookId)
              == old(AvailableCopies(db.books, db.loans, bookId)) - 2
  {
    if bookId >= |db.books| {
      return NotFound, None;
    }
    var target := actor;
    if IsLibrarian(db.users[actor].role) {
      if userId.None? {
        return BadRequest, None;
      }
      if userId.value >= |db.users| {
        return NotFound, None;
      }
      target := userId.value;
    }
    if AvailableCopies(db.books, db.loans, bookId) <= 0 {
      return BadRequest, None;
    }
    if dueDate.Malformed? {
      return BadRequest, None;
    }
    var saved := db.Save(None, NewLoan(target, bookId, now, DueOf(dueDate)));
    resp, loan := Created, Some(saved.id);
  }

  /** `ReserveBookView.post`: a pending reservation, only for a book with
      no copy available. */
  method ReserveBook(db: Store, actor: nat, bookId: nat, now: int)
    returns (resp: Http, reservation: Option<nat>)
    requires db.Valid() && actor < |db.users|
    modifies db`reservations
    ensures db.Valid()
    ensures resp ==
              if bookId >= |db.books| then NotFound
              else if AvailableCopies(db.books, db.loans, bookId) > 0 then BadRequest
              else Created
    ensures resp != Created ==> db.reservations == old(db.reservations) && reservation.None?
    ensures resp == Created ==>
              && reservation == Some(|old(db.reservations)|)
              && db.reservations == old(db.reservations) + [NewReservation(bookId, actor, now)]
              && db.reservations[reservation.value].status == Pending
  {
    if bookId >= |db.books| {
      return NotFound, None;
    }
    if AvailableCopies(db.books, db.loans, bookId) > 0 {
      return BadRequest, None;
    }
    db.reservations := db.reservations + [NewReservation(bookId, actor, now)];
    resp, reservation := Created, Some(|db.reservations| - 1);
  }

  /** `ReturnBookView.post`: staff only; a loan already returned is
      refused; otherwise `return_book` settles it. Answers with the fine. */
  method ReturnLoan(db: Store, actor: nat, loanId: nat, now: int)
    returns (resp: Http, fine: Option<int>)
    requires db.Valid() && actor < |db.users|
    modifies db`loans, db`books
    ensures db.Valid()
    ensures resp ==
              if !IsStaff(db.users[actor].role) then Forbidden
              else if loanId >= |old(db.loans)| then NotFound
              else if old(db.loans[loanId].returnedAt.Some?) then BadRequest
              else OK
    ensures resp != OK ==> db.loans == old(db.loans) && db.books == old(db.books) && fine.None?
    ensures resp == OK ==>
              && db.loans == old(db.loans)[loanId := Returned(old(db.loans[loanId]), now)]
              && db.books == Adjust(old(db.books), old(db.loans[loanId].book), 1)
              && fine == Some(Fine(now, old(db.loans[loanId].due)))
  {
    if !IsStaff(db.users[actor].role) {
      return Forbidden, None;
    }
    if loanId >= |db.loans| {
      return NotFound, None;
    }
    if db.loans[loanId].returnedAt.Some? {
      return BadRequest, None;
    }
    db.ReturnBook(loanId, now);
    resp, fine := OK, Some(db.loans[loanId].fine);
  }

  // ---------------------------------------------------------------------
  // Reservation management
  // ---------------------------------------------------------------------

  /** `CancelReservationView.post`: only a pending reservation can be
      cancelled. */
  method CancelReservation(db: Store, id: nat) returns (resp: Http)
    requires db.Valid()
    modifies db`reservations
    ensures db.Valid()
    ensures resp ==
              if id >= |old(db.reservations)| then NotFound
              else if old(db.reservations[id].status) != Pending then BadRequest
              else OK
    ensures resp != OK ==> db.reservations == old(db.reservations)
    ensures resp == OK ==>
              db.reservations == old(db.reservations)[id := old(db.reservations[id]).(status := Cancelled)]
  {
    if id >= |db.reservations| {
      return NotFound;
    }
    if db.reservations[id].status != Pending {
      return BadRequest;
    }
    db.reservations := db.reservations[id := db.reservations[id].(status := Cancelled)];
    resp := OK;
  }

  /** `FulfillReservationView.post`: whatever the reservation's status,
      issue its book to its user when a copy is available. The save hook
      and then the view each take a copy off `quantity`. When the view's
      own decrement would leave the quantity negative the database refuses
      it; the error escapes the view after the loan and the hook's
      decrement have been stored. */
  method FulfillReservation(db: Store, id: nat, now: int) returns (resp: Http, loan: Option<nat>)
    requires db.Valid()
    modifies db
    ensures db.Valid()
    ensures db.users == old(db.users) && db.requests == old(db.requests)
    ensures resp ==
              if id >= |old(db.reservations)| then NotFound
              else if old(AvailableCopies(db.books, db.loans, db.reservations[id].book)) <= 0 then BadRequest
              else if old(db.books[db.reservations[id].book].quantity) < 2 then InternalServerError
              else OK
    ensures resp == NotFound || resp == BadRequest ==>
              && db.books == old(db.books) && db.loans == old(db.loans)
              && db.reservations == old(db.reservations) && loan.None?
    ensures resp == InternalServerError ==>
              var r := old(db.reservations[id]);
              && loan.None?
              && db.loans == old(db.loans) + [NewLoan(r.user, r.book, now, None)]
              && db.books == Adjust(old(db.books), r.book, -1)
              && db.reservations == old(db.reservations)
    ensures resp == OK ==>
              var r := old(db.reservations[id]);
              && loan == Some(|old(db.loans)|)
              && db.loans == old(db.loans) + [NewLoan(r.user, r.book, now, None)]
              && db.books == Adjust(old(db.books), r.book, -2)
              && db.reservations == old(db.reservations)[id := r.(status := Fulfilled)]
    // fulfilling costs three available copies and loses one copy from the
    // library's accounting
    ensures resp == OK ==>
              var b := db.reservations[id].book;
              && AvailableCopies(db.books, db.loans, b) == old(AvailableCopies(db.books, db.loans, b)) - 3
              && Holdings(db.books, db.loans, b) == old(Holdings(db.books, db.loans, b)) - 1
  {
    if id >= |db.reservations| {
      return NotFound, None;
    }
    var r := db.reservations[id];
    if AvailableCopies(db.books, db.loans, r.book) <= 0 {
      return BadRequest, None;
    }
    ghost var books0 := db.books;
    var saved := db.Save(None, NewLoan(r.user, r.book, now, Some(NowPlus14Days(now))));
    if db.books[r.book].quantity - 1 < 0 {
      return InternalServerError, None;
    }
    db.books := Adjust(db.books, r.book, -1);
    assert db.books == Adjust(books0, r.book, -2);
    db.reservations := db.reservations[id := r.(status := Fulfilled)];
    resp, loan := OK, Some(saved.id);
  }

  // ---------------------------------------------------------------------
  // Borrow requests
  // ---------------------------------------------------------------------

  /** The rows of `filter(book_id=..., user=..., status='pending')`. */
  function PendingRequestRows(requests: seq<BorrowRequest>, user: nat, bookId: nat): nat -> bool {
    (i: nat) => i < |requests| && requests[i].user == user && requests[i].book == bookId
                && requests[i].status == RequestPending
  }

  /** `filter(book_id=..., user=..., status='pending').exists()`: the
      caller already has a pending request for the book. */
  predicate HasPendingRequest(requests: seq<BorrowRequest>, user: nat, bookId: nat)
    ensures HasPendingRequest(requests, user, bookId) <==>
              exists i :: 0 <= i < |requests| && requests[i].user == user && requests[i].book == bookId
                          && requests[i].status == RequestPending
  {
    PendingFilterFinds(requests, user, bookId);
    FilterIndices(|requests|, PendingRequestRows(requests, user, bookId)) != []
  }

  lemma PendingFilterFinds(requests: seq<BorrowRequest>, user: nat, bookId: nat)
    ensures FilterIndices(|requests|, PendingRequestRows(requests, user, bookId)) != [] <==>
              exists i :: 0 <= i < |requests| && requests[i].user == user && requests[i].book == bookId
                          && requests[i].status == RequestPending
  {
    var p := PendingRequestRows(requests, user, bookId);
    var found := FilterIndices(|requests|, p);
    if found != [] {
      assert p(found[0]);
      var i := found[0];
      assert 0 <= i < |requests| && requests[i].user == user && requests[i].book == bookId
             && requests[i].status == RequestPending;
    }
    if exists i :: 0 <= i < |requests| && requests[i].user == user && requests[i].book == bookId
                   && requests[i].status == RequestPending {
      var i :| 0 <= i < |requests| && requests[i].user == user && requests[i].book == bookId
               && requests[i].status == RequestPending;
      assert p(i);
      assert i in found;
    }
  }

  /** A stored request blocks exactly its own user and book: afterwards
      that pair has a pending request, and every other pair is as before. */
  lemma PendingAfterRequest(requests: seq<BorrowRequest>, user: nat, bookId: nat, now: int,
                            otherUser: nat, otherBook: nat)
    ensures HasPendingRequest(requests + [NewBorrowRequest(bookId, user, now)], user, bookId)
    ensures (otherUser, otherBook) != (user, bookId) ==>
              (HasPendingRequest(requests + [NewBorrowRequest(bookId, user, now)], otherUser, otherBook)
               <==> HasPendingRequest(requests, otherUser, otherBook))
  {
    var after := requests + [NewBorrowRequest(bookId, user, now)];
    assert after[|requests|] == NewBorrowRequest(bookId, user, now);
    if (otherUser, otherBook) != (user, bookId) && HasPendingRequest(after, otherUser, otherBook) {
      var i :| 0 <= i < |after| && after[i].user == otherUser && after[i].book == otherBook
               && after[i].status == RequestPending;
      assert i < |requests| && after[i] == requests[i];
    }
    if HasPendingRequest(requests, otherUser, otherBook) {
      var i :| 0 <= i < |requests| && requests[i].user == otherUser && requests[i].book == otherBook
               && requests[i].status == RequestPending;
      assert after[i] == requests[i];
    }
  }

  /** `BorrowRequestView.post`: refused while the caller already has a
      pending request for the book. A book id that names no book fails the
      foreign key. Once stored, the request refuses the next one for the
      same user and book and leaves every other pair's answer unchanged. */
  method CreateBorrowRequest(db: Store, actor: nat, bookId: nat, now: int) returns (resp: Http)
    requires db.Valid() && actor < |db.users|
    modifies db`requests
    ensures db.Valid()
    ensures resp ==
              if HasPendingRequest(old(db.requests), actor, bookId) then BadRequest
              else if bookId >= |db.books| then InternalServerError
              else Created
    ensures resp != Created ==> db.requests == old(db.requests)
    ensures resp == Created ==> db.requests == old(db.requests) + [NewBorrowRequest(bookId, actor, now)]
    // a second request for the same book would now be refused
    ensures resp == Created ==> HasPendingRequest(db.requests, actor, bookId)
    ensures resp == Created ==>
              forall u: nat, b: nat :: (u, b) != (actor, bookId) ==>
                (HasPendingRequest(db.requests, u, b) <==> HasPendingRequest(old(db.requests), u, b))
  {
    if HasPendingRequest(db.requests, actor, bookId) {
      return BadRequest;
    }
    if bookId >= |db.books| {
      return InternalServerError;
    }
    forall u: nat, b: nat
      ensures (u, b) != (actor, bookId) ==>
                (HasPendingRequest(db.requests + [NewBorrowRequest(bookId, actor, now)], u, b)
                 <==> HasPendingRequest(db.requests, u, b))
    {
      PendingAfterRequest(db.requests, actor, bookId, now, u, b);
    }
    PendingAfterRequest(db.requests, actor, bookId, now, actor, bookId);
    db.requests := db.requests + [NewBorrowRequest(bookId, actor, now)];
    resp := Created;
  }

  /** `BorrowRequestView.put`: staff only. "approve" stores a loan through
      the save hook, whatever the request's status; when the hook finds no
      copy its error escapes the view and nothing changes. "reject" marks
      the request; any other action is refused. */
  method ProcessBorrowRequest(db: Store, actor: nat, id: nat, action: string, now: int)
    returns (resp: Http)
    requires db.Valid() && actor < |db.users|
    modifies db
    ensures db.Valid()
    ensures db.users == old(db.users) && db.reservations == old(db.reservations)
    ensures resp ==
              if !IsStaff(old(db.users[actor].role)) then Forbidden
              else if id >= |old(db.requests)| then NotFound
              else if action == "approve" then
                (if old(AvailableCopies(db.books, db.loans, db.requests[id].book)) <= 0
                 then InternalServerError else OK)
              else if action == "reject" then OK
              else BadRequest
    ensures resp != OK ==>
              db.books == old(db.books) && db.loans == old(db.loans) && db.requests == old(db.requests)
    ensures resp == OK && action == "approve" ==>
              var q := old(db.requests[id]);
              && db.loans == old(db.loans) + [NewLoan(q.user, q.book, now, None)]
              && db.books == Adjust(old(db.books), q.book, -1)
              && db.requests == old(db.requests)[id := q.(status := Approved)]
              && Holdings(db.books, db.loans, q.book) == old(Holdings(db.books, db.loans, q.book))
    ensures resp == OK && action != "approve" ==>
              && db.books == old(db.books) && db.loans == old(db.loans)
              && db.requests == old(db.requests)[id := old(db.requests[id]).(status := Rejected)]
  {
    if !IsStaff(db.users[actor].role) {
      return Forbidden;
    }
    if id >= |db.requests| {
      return NotFound;
    }
    var q := db.requests[id];
    if action == "approve" {
      var saved := db.Save(None, NewLoan(q.user, q.book, now, Some(NowPlus14Days(now))));
      if saved.NoCopiesAvailable? {
        return InternalServerError;
      }
      db.requests := db.requests[id := q.(status := Approved)];
      resp := OK;
    } else if action == "reject" {
      db.requests := db.requests[id := q.(status := Rejected)];
      resp := OK;
    } else {
      resp := BadRequest;
    }
  }

  predicate UsernameTaken(users: seq<User>, username: string) {
    exists i :: 0 <= i < |users| && users[i].username == username
  }

  /** `register_user`: username, e-mail and password are all required; a
      username already taken violates its uniqueness constraint. The new
      account has the default role. */
  method RegisterUser(db: Store, username: string, email: string, password: string)
    returns (resp: Http)
    requires db.Valid()
    modifies db`users
    ensures db.Valid()
    ensures resp ==
              if username == "" || email == "" || password == "" then BadRequest
              else if UsernameTaken(old(db.users), username) then InternalServerError
              else Created
    ensures resp != Created ==> db.users == old(db.users)
    ensures resp == Created ==>
              && db.users == old(db.users) + [NewUser(username, email)]
              && !IsStaff(db.users[|old(db.users)|].role)
  {
    if username == "" || email == "" || password == "" {
      return BadRequest;
    }
    if UsernameTaken(db.users, username) {
      return InternalServerError;
    }
    RoleExamples();
    db.users := db.users + [NewUser(username, email)];
    resp := Created;
  }

  // ---------------------------------------------------------------------
  // Read-only endpoints
  // ---------------------------------------------------------------------

  /** `BorrowedBooksView.get`: the outstanding loans, all of them for a
      librarian and the caller's own otherwise. */
  function BorrowedBooks(users: seq<User>, loans: seq<Loan>, actor: nat): (r: seq<nat>)
    requires actor < |users|
    ensures forall i: nat :: i in r <==>
              i < |loans| && loans[i].returnedAt.None?
              && (IsLibrarian(users[actor].role) || loans[i].user == actor)
  {
    var librarian := IsLibrarian(users[actor].role);
    FilterIndices(|loans|, (i: nat) => i < |loans| && loans[i].returnedAt.None?
                                && (librarian || loans[i].user == actor))
  }

  /** `BookListView.get`: the books whose quantity is positive. */
  function ListBooks(books: seq<Book>): (r: seq<nat>)
    ensures forall b: nat :: b in r <==> b < |books| && books[b].quantity > 0
  {
    FilterIndices(|books|, (b: nat) => b < |books| && books[b].quantity > 0)
  }

  predicate MatchesSearch(book: Book, title: string, author: string, isbn: string) {
    ContainsIgnoreCase(book.title, title) && ContainsIgnoreCase(book.author, author)
    && ContainsIgnoreCase(book.isbn, isbn)
  }

  /** `BookSearchView.get`: the books whose title, author and isbn each
      contain the corresponding query, ignoring case. */
  function SearchBooks(books: seq<Book>, title: string, author: string, isbn: string): (r: seq<nat>)
    ensures forall b: nat :: b in r <==> b < |books| && MatchesSearch(books[b], title, author, isbn)
  {
    FilterIndices(|books|, (b: nat) => b < |books| && MatchesSearch(books[b], title, author, isbn))
  }

  /** With no query parameters every book is found. */
  lemma EmptySearchFindsAll(books: seq<Book>)
    ensures forall b: nat :: b in SearchBooks(books, "", "", "") <==> b < |books|
  {
    forall b: nat | b < |books| ensures MatchesSearch(books[b], "", "", "") {
      EmptyQueryMatches(books[b].title);
      EmptyQueryMatches(books[b].author);
      EmptyQueryMatches(books[b].isbn);
    }
  }

  /** The rows `Count('borrowedbook', filter=...)` counts for book `b`. */
  function LoanedRows(loans: seq<Loan>, b: nat): nat -> bool {
    (i: nat) => i < |loans| && IsOutstandingFor(loans[i], b)
  }

  lemma {:induction false} LoanedRowsCount(loans: seq<Loan>, b: nat, n: nat)
    requires n <= |loans|
    ensures |FilterIndices(n, LoanedRows(loans, b))| == OutstandingCount(loans[..n], b)
  {
    if n > 0 {
      LoanedRowsCount(loans, b, n - 1);
      assert loans[..n][..n - 1] == loans[..n - 1];
    }
  }

  /** The dashboard's `annotated_available_copies`: quantity less the
      outstanding loans the aggregate counts. It always equals the
      `available_copies` property. */
  function AnnotatedAvailable(books: seq<Book>, loans: seq<Loan>, b: nat): (n: int)
    requires b < |books|
    ensures n == AvailableCopies(books, loans, b)
  {
    LoanedRowsCount(loans, b, |loans|);
    assert loans[..|loans|] == loans;
    books[b].quantity - |FilterIndices(|loans|, LoanedRows(loans, b))|
  }

  /** On the dashboard the serialized availability is the same whether the
      annotation is present or the field falls back to the property. */
  lemma DashboardAvailabilityAgrees(books: seq<Book>, loans: seq<Loan>, b: nat)
    requires b < |books|
    ensures AvailableCopiesField(Some(AnnotatedAvailable(books, loans, b)), books, loans, b)
            == AvailableCopiesField(None, books, loans, b)
  {
  }

  function OutstandingRows(loans: seq<Loan>): nat -> bool {
    (i: nat) => i < |loans| && loans[i].returnedAt.None?
  }

  function OverdueRows(loans: seq<Loan>, now: int): nat -> bool {
    (i: nat) => i < |loans| && loans[i].returnedAt.None? && loans[i].due < now
  }

  /** The filter over outstanding loans has one entry per outstanding loan. */
  lemma OutstandingRowsCount(loans: seq<Loan>)
    ensures |FilterIndices(|loans|, OutstandingRows(loans))|
            == |set i: nat | i < |loans| && loans[i].returnedAt.None?|
  {
    FilterCount(|loans|, OutstandingRows(loans));
    assert Selected(|loans|, OutstandingRows(loans)) == set i: nat | i < |loans| && loans[i].returnedAt.None?;
  }

  /** The filter over overdue loans has one entry per outstanding loan due
      before `now`. */
  lemma OverdueRowsCount(loans: seq<Loan>, now: int)
    ensures |FilterIndices(|loans|, OverdueRows(loans, now))|
            == |set i: nat | i < |loans| && loans[i].returnedAt.None? && loans[i].due < now|
  {
    FilterCount(|loans|, OverdueRows(loans, now));
    assert Selected(|loans|, OverdueRows(loans, now))
           == set i: nat | i < |loans| && loans[i].returnedAt.None? && loans[i].due < now;
  }

  datatype DashboardData = DashboardData(totalBooks: nat, borrowedBooks: nat, overdueBooks: nat,
                                         lowAvailability: seq<nat>, pendingRequests: seq<nat>)

  /** `DashboardView.get`, its counts and filters: books, outstanding loans,
      outstanding loans past due, books in stock with at most two copies
      available, and pending borrow requests. */
  function Dashboard(books: seq<Book>, loans: seq<Loan>, requests: seq<BorrowRequest>, now: int)
    : (d: DashboardData)
    ensures d.totalBooks == |books|
    ensures d.borrowedBooks == |set i: nat | i < |loans| && loans[i].returnedAt.None?|
    ensures d.overdueBooks == |set i: nat | i < |loans| && loans[i].returnedAt.None? && loans[i].due < now|
    ensures d.overdueBooks <= d.borrowedBooks <= |loans|
    ensures forall b: nat :: b in d.lowAvailability <==>
              b < |books| && books[b].quantity > 0 && AvailableCopies(books, loans, b) <= 2
    ensures forall i: nat :: i in d.pendingRequests <==>
              i < |requests| && requests[i].status == RequestPending
  {
    FilterWeaker(|loans|, OverdueRows(loans, now), OutstandingRows(loans));
    OutstandingRowsCount(loans);
    OverdueRowsCount(loans, now);
    DashboardData(
      |books|,
      |FilterIndices(|loans|, OutstandingRows(loans))|,
      |FilterIndices(|loans|, OverdueRows(loans, now))|,
      FilterIndices(|books|, (b: nat) => b < |books| && books[b].quantity > 0
                                  && AnnotatedAvailable(books, loans, b) <= 2),
      FilterIndices(|requests|, (i: nat) => i < |requests| && requests[i].status == RequestPending))
  }
}
