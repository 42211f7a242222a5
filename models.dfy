/** The library's records and the bookkeeping its model layer does when a
    loan is stored or returned (library/models.py).

    Times are whole seconds; a primary key is the position of a row in its
    table. */
module Models {
  import opened Prelude

  /** Seconds in a day. */
  const DAY: int := 86400
  /** Length of a loan when no due date is given. */
  const LOAN_DAYS: int := 14
  /** Fine charged per whole day overdue. */
  const FINE_PER_DAY: int := 5
  /** The role a new account gets. */
  const DEFAULT_ROLE: string := "member"

  datatype User = User(username: string, email: string, role: string)

  /** `quantity` is the only field the bookkeeping touches. It is a
      `PositiveIntegerField`: the database refuses to store a negative value. */
  datatype Book = Book(title: string, author: string, isbn: string, quantity: int)

  /** A BorrowedBook row; `returnedAt == None` while the loan is outstanding. */
  datatype Loan = Loan(user: nat, book: nat, borrowedAt: int, due: int,
                       returnedAt: Option<int>, fine: int)

  /** The declared choices, plus `Fulfilled`, which the fulfil endpoint
      stores although it is not one of them. */
  datatype ReservationStatus = Pending | Confirmed | Cancelled | Fulfilled

  datatype Reservation = Reservation(book: nat, user: nat, status: ReservationStatus,
                                     reservedAt: int)

  datatype RequestStatus = RequestPending | Approved | Rejected

  datatype BorrowRequest = BorrowRequest(book: nat, user: nat, status: RequestStatus,
                                         requestedAt: int)

  // ---------------------------------------------------------------------
  // Time and fines
  // ---------------------------------------------------------------------

  /** `timedelta.days`: whole days, rounded toward minus infinity. */
  function FloorDays(seconds: int): (d: int)
    ensures d * DAY <= seconds < (d + 1) * DAY
  {
    seconds / DAY
  }

  /** The default due date of a loan created at `now`. */
  function NowPlus14Days(now: int): (due: int)
    ensures due - now == LOAN_DAYS * DAY
    ensures FloorDays(due) == FloorDays(now) + LOAN_DAYS
  {
    now + LOAN_DAYS * DAY
  }

  /** Whole days from `due` to `at`, never below zero. */
  function OverdueDays(at: int, due: int): (d: nat)
    ensures at < due + DAY ==> d == 0
    ensures at >= due ==> d * DAY <= at - due < (d + 1) * DAY
  {
    var d := FloorDays(at - due);
    if d > 0 then d else 0
  }

  /** The fine for a loan due at `due` and settled at `at`: five per whole
      day overdue. A loan settled before its due date, or less than a full
      day after it, owes nothing. */
  function Fine(at: int, due: int): (f: int)
    ensures f >= 0 && f % FINE_PER_DAY == 0
    ensures at < due + DAY ==> f == 0
    ensures at >= due ==> due + (f / FINE_PER_DAY) * DAY <= at < due + (f / FINE_PER_DAY + 1) * DAY
  {
    OverdueDays(at, due) * FINE_PER_DAY
  }

  /** The fine never decreases as the settling time moves later. */
  lemma FineMonotone(t1: int, t2: int, due: int)
    requires t1 <= t2
    ensures Fine(t1, due) <= Fine(t2, due)
  {
    var d1, d2 := FloorDays(t1 - due), FloorDays(t2 - due);
    assert d1 * DAY <= t1 - due <= t2 - due < (d2 + 1) * DAY;
    assert d1 <= d2;
  }

  // ---------------------------------------------------------------------
  // Defaults of new rows
  // ---------------------------------------------------------------------

  /** A user account as registration creates it. */
  function NewUser(username: string, email: string): (u: User)
    ensures u.username == username && u.email == email
    ensures u.role == DEFAULT_ROLE
  {
    User(username, email, DEFAULT_ROLE)
  }

  /** A loan created at `now`; without an explicit due date it is due
      fourteen days later. It starts outstanding and fine-free. */
  function NewLoan(user: nat, book: nat, now: int, due: Option<int>): (l: Loan)
    ensures l.user == user && l.book == book && l.borrowedAt == now
    ensures l.returnedAt == None && l.fine == 0
    ensures due.None? ==> l.due == now + LOAN_DAYS * DAY
    ensures due.Some? ==> l.due == due.value
  {
    Loan(user, book, now, if due.Some? then due.value else NowPlus14Days(now), None, 0)
  }

  function NewReservation(book: nat, user: nat, now: int): (r: Reservation)
    ensures r.status == Pending && r.book == book && r.user == user && r.reservedAt == now
  {
    Reservation(book, user, Pending, now)
  }

  function NewBorrowRequest(book: nat, user: nat, now: int): (r: BorrowRequest)
    ensures r.status == RequestPending && r.book == book && r.user == user && r.requestedAt == now
  {
    BorrowRequest(book, user, RequestPending, now)
  }

  // ---------------------------------------------------------------------
  // Copy accounting
  // ---------------------------------------------------------------------

  predicate IsOutstandingFor(l: Loan, b: nat) {
    l.book == b && l.returnedAt.None?
  }

  /** The number of outstanding loans of book `b`. */
  function OutstandingCount(loans: seq<Loan>, b: nat): (n: nat)
    ensures n <= |loans|
  {
    if loans == [] then 0
    else OutstandingCount(loans[..|loans| - 1], b)
         + (if IsOutstandingFor(loans[|loans| - 1], b) then 1 else 0)
  }

  /** Storing one more loan raises the count by one exactly when that loan
      is an outstanding loan of the book. */
  lemma OutstandingAppend(loans: seq<Loan>, l: Loan, b: nat)
    ensures OutstandingCount(loans + [l], b)
            == OutstandingCount(loans, b) + (if IsOutstandingFor(l, b) then 1 else 0)
  {
    assert (loans + [l])[..|loans|] == loans;
  }

  /** Replacing one loan changes the count by the difference it makes to
      that one row. */
  lemma {:induction false} OutstandingReplace(loans: seq<Loan>, i: nat, l: Loan, b: nat)
    requires i < |loans|
    ensures OutstandingCount(loans[i := l], b)
            == OutstandingCount(loans, b)
               - (if IsOutstandingFor(loans[i], b) then 1 else 0)
               + (if IsOutstandingFor(l, b) then 1 else 0)
  {
    var last := |loans| - 1;
    if i < last {
      OutstandingReplace(loans[..last], i, l, b);
      assert loans[i := l][..last] == loans[..last][i := l];
    } else {
      assert loans[i := l][..last] == loans[..last];
    }
  }

  /** `available_copies`: the stored quantity less the outstanding loans.
      Nothing clamps it at zero. */
  function AvailableCopies(books: seq<Book>, loans: seq<Loan>, b: nat): (n: int)
    requires b < |books|
    ensures books[b].quantity - |loans| <= n <= books[b].quantity
  {
    books[b].quantity - OutstandingCount(loans, b)
  }

  /** The available count can go below zero: the state right after the
      only copy of a book has been borrowed (quantity 0, one loan out). */
  lemma AvailableCanBeNegative(b: Book, l: Loan)
    requires b.quantity == 0 && l.book == 0 && l.returnedAt.None?
    ensures AvailableCopies([b], [l], 0) == -1
  {
    assert [l][..0] == [];
  }

  /** Copies on the shelf plus copies out on loan: the number of copies the
      library is accounting for. Borrowing and returning keep it; the
      reservation fulfilment path loses one. */
  function Holdings(books: seq<Book>, loans: seq<Loan>, b: nat): int
    requires b < |books|
  {
    books[b].quantity + OutstandingCount(loans, b)
  }

  /** `books` with book `b`'s quantity moved by `delta`. */
  function Adjust(books: seq<Book>, b: nat, delta: int): seq<Book>
    requires b < |books|
  {
    books[b := books[b].(quantity := books[b].quantity + delta)]
  }

  /** The loan as `return_book` leaves it when settled at `at`. */
  function Returned(l: Loan, at: int): (r: Loan)
    ensures r.returnedAt == Some(at)
    ensures r.fine == Fine(at, l.due)
    ensures r.user == l.user && r.book == l.book && r.due == l.due && r.borrowedAt == l.borrowedAt
  {
    l.(returnedAt := Some(at), fine := Fine(at, l.due))
  }

  /** The outcome of storing a loan: its primary key, or the
      "No copies available" error `can_borrow` raises. */
  datatype Saved = Stored(id: nat) | NoCopiesAvailable

  /** The data store: one sequence per table. */
  class Store {
    var users: seq<User>
    var books: seq<Book>
    var loans: seq<Loan>
    var reservations: seq<Reservation>
    var requests: seq<BorrowRequest>

    /** Every foreign key names an existing row, and no quantity is
        negative. */
    ghost predicate Valid()
      reads this
    {
      && (forall b :: 0 <= b < |books| ==> books[b].quantity >= 0)
      && (forall i :: 0 <= i < |loans| ==> loans[i].user < |users| && loans[i].book < |books|)
      && (forall i :: 0 <= i < |reservations| ==>
            reservations[i].user < |users| && reservations[i].book < |books|)
      && (forall i :: 0 <= i < |requests| ==>
            requests[i].user < |users| && requests[i].book < |books|)
    }

    /** A store holding the given accounts and books and nothing else. */
    constructor (users: seq<User>, books: seq<Book>)
      requires forall b :: 0 <= b < |books| ==> books[b].quantity >= 0
      ensures Valid()
      ensures this.users == users && this.books == books
      ensures loans == [] && reservations == [] && requests == []
    {
      this.users := users;
      this.books := books;
      loans := [];
      reservations := [];
      requests := [];
    }

    /** `can_borrow`: for a loan not stored yet, take a copy off `quantity`
        when one is available and refuse otherwise; for a stored loan, do
        nothing. */
    method CanBorrow(isNew: bool, b: nat) returns (ok: bool)
      requires Valid() && b < |books|
      modifies this`books
      ensures Valid()
      ensures ok <==> !isNew || old(AvailableCopies(books, loans, b)) > 0
      ensures books == if isNew && ok then Adjust(old(books), b, -1) else old(books)
    {
      if isNew && AvailableCopies(books, loans, b) > 0 {
        books := Adjust(books, b, -1);
        ok := true;
      } else if isNew {
        ok := false;
      } else {
        ok := true;
      }
    }

    /** `save`, which runs `clean` first: an outstanding loan goes through
        `can_borrow`; then the row is inserted (no `pk`) or overwritten. */
    method Save(pk: Option<nat>, loan: Loan) returns (r: Saved)
      requires Valid()
      requires loan.user < |users| && loan.book < |books|
      requires pk.Some? ==> pk.value < |loans|
      modifies this
      ensures Valid()
      ensures users == old(users) && reservations == old(reservations) && requests == old(requests)
      ensures r.NoCopiesAvailable? <==>
                pk.None? && loan.returnedAt.None? && old(AvailableCopies(books, loans, loan.book)) <= 0
      ensures r.NoCopiesAvailable? ==> books == old(books) && loans == old(loans)
      ensures r.Stored? && pk.None? ==> r.id == |old(loans)| && loans == old(loans) + [loan]
      ensures r.Stored? && pk.Some? ==> r.id == pk.value && loans == old(loans)[pk.value := loan]
      ensures r.Stored? ==>
                books == if pk.None? && loan.returnedAt.None? then Adjust(old(books), loan.book, -1)
                         else old(books)
      // a loan that already has a primary key never moves any quantity
      ensures pk.Some? ==> books == old(books)
      // storing a new outstanding loan costs its book two available copies
      // and keeps the copies accounted for; other books are untouched
      ensures r.Stored? && pk.None? && loan.returnedAt.None? ==>
                && AvailableCopies(books, loans, loan.book)
                   == old(AvailableCopies(books, loans, loan.book)) - 2
                && Holdings(books, loans, loan.book) == old(Holdings(books, loans, loan.book))
      ensures r.Stored? && pk.None? ==>
                forall c :: 0 <= c < |books| && c != loan.book ==>
                  AvailableCopies(books, loans, c) == old(AvailableCopies(books, loans, c))
    {
      ghost var loans0 := loans;
      if loan.returnedAt.None? {
        var ok := CanBorrow(pk.None?, loan.book);
        if !ok {
          return NoCopiesAvailable;
        }
      }
      if pk.None? {
        loans := loans + [loan];
        r := Stored(|loans| - 1);
        forall c | 0 <= c < |books|
          ensures OutstandingCount(loans, c)
                  == OutstandingCount(loans0, c) + (if IsOutstandingFor(loan, c) then 1 else 0)
        {
          OutstandingAppend(loans0, loan, c);
        }
      } else {
        loans := loans[pk.value := loan];
        r := Stored(pk.value);
      }
    }

    /** `return_book`: settle an outstanding loan at `now` (stamp it, charge
        the fine, put the copy back on `quantity`); on a loan already
        returned, do nothing. */
    method ReturnBook(id: nat, now: int)
      requires Valid() && id < |loans|
      modifies this`loans, this`books
      ensures Valid()
      ensures old(loans[id].returnedAt.Some?) ==> loans == old(loans) && books == old(books)
      ensures old(loans[id].returnedAt.None?) ==>
                && loans == old(loans)[id := Returned(old(loans[id]), now)]
                && books == Adjust(old(books), old(loans[id].book), 1)
      // settling gives the book back two available copies and keeps the
      // copies accounted for
      ensures old(loans[id].returnedAt.None?) ==>
                var b := loans[id].book;
                && AvailableCopies(books, loans, b) == old(AvailableCopies(books, loans, b)) + 2
                && Holdings(books, loans, b) == old(Holdings(books, loans, b))
    {
      var l := loans[id];
      if l.returnedAt.None? {
        OutstandingReplace(loans, id, Returned(l, now), l.book);
        loans := loans[id := Returned(l, now)];
        books := Adjust(books, l.book, 1);
      }
    }
  }
}
