/** Walk-throughs of the endpoints on small concrete stores, proved from
    the handlers' contracts alone. */
module Scenarios {
  import opened Prelude
  import opened Text
  import opened Models
  import opened Serializers
  import opened Views
  import opened Tasks

  const T0: int := 100 * DAY

  /** One copy of one book. A member borrows it: the quantity drops to 0
      and the available count to -1. A second borrow is refused. The
      librarian takes it back 28 days later, 14 days past due: the fine is
      70 and one copy is available again. */
  method SingleCopyScenario()
    returns (availableAfterBorrow: int, quantityAfterBorrow: int, second: Http,
             fine: Option<int>, availableAfterReturn: int)
    ensures availableAfterBorrow == -1 && quantityAfterBorrow == 0
    ensures second == BadRequest
    ensures fine == Some(70)
    ensures availableAfterReturn == 1
  {
    RoleExamples();
    assert Lower("member") == "member";
    var db := new Store([User("lib", "lib@example.org", "Librarian"), NewUser("ann", "ann@example.org")],
                        [Book("Dune", "Herbert", "9780441013593", 1)]);
    var first, loan := BorrowBook(db, 1, 0, None, NoDueDate, T0);
    assert db.loans == [NewLoan(1, 0, T0, None)];
    assert db.loans[..0] == [];
    availableAfterBorrow := AvailableCopies(db.books, db.loans, 0);
    quantityAfterBorrow := db.books[0].quantity;

    var again;
    second, again := BorrowBook(db, 1, 0, None, NoDueDate, T0 + DAY);

    var resp;
    resp, fine := ReturnLoan(db, 0, 0, T0 + 28 * DAY);
    assert db.loans[..0] == [];
    availableAfterReturn := AvailableCopies(db.books, db.loans, 0);
  }

  const Members: seq<User> :=
    [NewUser("ann", "ann@example.org"), NewUser("bob", "bob@example.org"),
     NewUser("cy", "cy@example.org"), User("lib", "lib@example.org", "admin")]

  /** Four copies. Two members borrow one each: quantity 2, available 0,
      since each borrow costs two. */
  method TwoLoansOut() returns (db: Store)
    ensures fresh(db) && db.Valid() && db.users == Members
    ensures db.books == [Book("Emma", "Austen", "9780141439587", 2)]
    ensures db.loans == [NewLoan(0, 0, T0, None), NewLoan(1, 0, T0, None)]
    ensures db.reservations == []
  {
    assert Lower("member") == "member";
    db := new Store(Members, [Book("Emma", "Austen", "9780141439587", 4)]);
    var r, l := BorrowBook(db, 0, 0, None, NoDueDate, T0);
    var l0, l1 := NewLoan(0, 0, T0, None), NewLoan(1, 0, T0, None);
    assert db.loans == [l0];
    assert db.books[0].quantity == 3;
    assert AvailableCopies(db.books, db.loans, 0) == 2;
    r, l := BorrowBook(db, 1, 0, None, NoDueDate, T0);
    assert db.loans == [l0, l1];
    assert [l0, l1][..1] == [l0];
    assert db.books[0].quantity == 2;
  }

  /** Continuing `TwoLoansOut`: a third member reserves, and fulfilling is
      refused while nothing is available. One loan comes back, leaving
      quantity 3 and available 2. Fulfilling the reservation now leaves
      quantity 1 and available -1, three fewer. */
  method FulfilScenario()
    returns (reserved: Http, early: Http, fulfilled: Http, quantityAfter: int, availableAfter: int,
             status: ReservationStatus)
    ensures reserved == Created && early == BadRequest && fulfilled == OK
    ensures quantityAfter == 1 && availableAfter == -1
    ensures status == Fulfilled
  {
    var db := TwoLoansOut();
    var l0, l1 := NewLoan(0, 0, T0, None), NewLoan(1, 0, T0, None);
    assert [l0, l1][..1] == [l0];
    assert [l0][..0] == [];
    assert OutstandingCount([l0], 0) == 1;
    assert OutstandingCount([l0, l1], 0) == 2;
    assert Lower("member") == "member";
    var res, l;
    reserved, res := ReserveBook(db, 2, 0, T0 + DAY);
    early, l := FulfillReservation(db, 0, T0 + DAY);
    assert Lower("admin") == "admin";
    var r, fine := ReturnLoan(db, 3, 0, T0 + 2 * DAY);
    var m0 := Returned(l0, T0 + 2 * DAY);
    assert db.loans == [m0, l1];
    assert [m0, l1][..1] == [m0];
    assert [m0][..0] == [];
    assert OutstandingCount([m0], 0) == 0;
    assert OutstandingCount([m0, l1], 0) == 1;
    fulfilled, l := FulfillReservation(db, 0, T0 + 2 * DAY);
    var l2 := NewLoan(2, 0, T0 + 2 * DAY, None);
    assert db.loans == [m0, l1, l2];
    assert [m0, l1, l2][..2] == [m0, l1];
    quantityAfter := db.books[0].quantity;
    availableAfter := AvailableCopies(db.books, db.loans, 0);
    status := db.reservations[0].status;
  }

  /** One copy, borrowed and reserved, then returned: fulfilling the
      reservation stores the loan and takes the copy off, but the view's
      second decrement is refused by the database, so the request fails
      with the reservation still pending. */
  method LastCopyFulfilScenario()
    returns (fulfilled: Http, loans: nat, quantityAfter: int, availableAfter: int, status: ReservationStatus)
    ensures fulfilled == InternalServerError
    ensures loans == 2 && quantityAfter == 0 && availableAfter == -1
    ensures status == Pending
  {
    assert Lower("member") == "member";
    assert Lower("admin") == "admin";
    var db := new Store([NewUser("ann", "ann@example.org"), NewUser("bob", "bob@example.org"),
                         User("lib", "lib@example.org", "admin")],
                        [Book("Emma", "Austen", "9780141439587", 1)]);
    var r, l := BorrowBook(db, 0, 0, None, NoDueDate, T0);
    var l0 := NewLoan(0, 0, T0, None);
    assert db.loans == [l0];
    assert db.books[0].quantity == 0;
    var res;
    r, res := ReserveBook(db, 1, 0, T0 + DAY);
    assert db.reservations[0] == NewReservation(0, 1, T0 + DAY);
    var fine;
    r, fine := ReturnLoan(db, 2, 0, T0 + 2 * DAY);
    var m0 := Returned(l0, T0 + 2 * DAY);
    assert db.loans == [m0];
    assert [m0][..0] == [];
    assert db.books[0].quantity == 1;
    assert AvailableCopies(db.books, db.loans, 0) == 1;
    fulfilled, l := FulfillReservation(db, 0, T0 + 2 * DAY);
    var l1 := NewLoan(1, 0, T0 + 2 * DAY, None);
    assert db.loans == [m0, l1];
    assert [m0, l1][..1] == [m0];
    loans := |db.loans|;
    quantityAfter := db.books[0].quantity;
    availableAfter := AvailableCopies(db.books, db.loans, 0);
    status := db.reservations[0].status;
  }

  /** A reservation made at `T0` survives the sweep three days later and
      is cancelled by the sweep one second after that; a second sweep at
      the same instant cancels nothing. */
  method ExpiryScenario() returns (atThreeDays: nat, justAfter: nat, rerun: nat, status: ReservationStatus)
    ensures atThreeDays == 0 && justAfter == 1 && rerun == 0
    ensures status == Cancelled
  {
    var db := new Store([NewUser("ann", "ann@example.org")], [Book("Emma", "Austen", "9780141439587", 0)]);
    var resp, id := ReserveBook(db, 0, 0, T0);
    var rs := db.reservations;
    assert rs == [NewReservation(0, 0, T0)];
    assert FilterIndices(0, ExpiredRows(rs, T0)) == [];
    atThreeDays := AutoCancelExpiredReservations(db, T0 + 3 * DAY);
    assert db.reservations == rs;
    justAfter := AutoCancelExpiredReservations(db, T0 + 3 * DAY + 1);
    CancelExpiredSettles(rs, T0 + 1);
    rerun := AutoCancelExpiredReservations(db, T0 + 3 * DAY + 1);
    status := db.reservations[0].status;
  }

  /** Two fines: due on day 10 and returned on day 20 owes 50; returned a
      second short of a full day late owes nothing. */
  lemma FineExamples()
    ensures Fine(20 * DAY, 10 * DAY) == 50
    ensures Fine(11 * DAY - 1, 10 * DAY) == 0
  {
    assert FloorDays(10 * DAY) == 10;
  }

  /** The greeting of the confirmation mail. */
  lemma DisplayNameExample()
    ensures DisplayName("jO.d@x") == "Jo.d"
  {
    assert LocalPart("jO.d@x") == "jO.d";
  }
}
