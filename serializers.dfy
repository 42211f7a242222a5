/** The two computed fields of the wire format (library/serializers.py). */
module Serializers {
  import opened Prelude
  import opened Models

  /** `get_current_fine`: the fine an outstanding loan would owe if it were
      settled `now`; for a returned loan, the fine stored when it was
      settled. */
  function CurrentFine(l: Loan, now: int): (f: int)
    ensures l.returnedAt.Some? ==> f == l.fine
    ensures l.returnedAt.None? ==> f >= 0 && f % FINE_PER_DAY == 0
    ensures l.returnedAt.None? && now < l.due + DAY ==> f == 0
    ensures l.returnedAt.None? && now >= l.due ==>
              l.due + (f / FINE_PER_DAY) * DAY <= now < l.due + (f / FINE_PER_DAY + 1) * DAY
  {
    if l.returnedAt.None? then Fine(now, l.due) else l.fine
  }

  /** Returning a loan at `t` stores exactly the fine the live field showed
      at `t`, and from then on the field shows that amount at every time. */
  lemma SettledFineMatchesLiveFine(l: Loan, t: int, later: int)
    requires l.returnedAt.None?
    ensures CurrentFine(Returned(l, t), t) == CurrentFine(l, t)
    ensures CurrentFine(Returned(l, t), later) == CurrentFine(l, t)
  {
  }

  /** A loan with the default due date shows no fine during its fifteen
      first days. */
  lemma NewLoanOwesNothing(user: nat, book: nat, now: int, t: int)
    requires t < now + (LOAN_DAYS + 1) * DAY
    ensures CurrentFine(NewLoan(user, book, now, None), t) == 0
  {
  }

  /** `get_available_copies`: the value the query annotated, when it did;
      otherwise the `available_copies` property. */
  function AvailableCopiesField(annotated: Option<int>, books: seq<Book>, loans: seq<Loan>, b: nat): (n: int)
    requires b < |books|
    ensures annotated.Some? ==> n == annotated.value
    ensures annotated.None? ==> n == AvailableCopies(books, loans, b)
  {
    if annotated.Some? then annotated.value else AvailableCopies(books, loans, b)
  }
}
