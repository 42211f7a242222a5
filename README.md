# Library management backend: a Dafny model

This project models the core of `lms_be`, a Django REST backend for a
library. It covers:

- the records: users with a free-text role, books with a stock `quantity`,
  loans (`BorrowedBook`), reservations and borrow requests;
- the copy bookkeeping of the loan model: the save hook that takes a copy
  off `quantity`, the return that puts one back, and the fine of five per
  whole day overdue;
- the request handlers for borrowing, reserving, returning, fulfilling and
  cancelling reservations, borrow requests and registration, as
  module-level methods of `Views` that take the `Store` holding the tables
  and change it in place;
- the read-only endpoints: the borrowed list, the book list, the search
  and the dashboard;
- the two computed serializer fields;
- the background jobs: the borrow confirmation mail, the overdue and
  due-today reminder sweeps, and the expiry of old reservations.

Files:

| file | content |
|---|---|
| `prelude.dfy` | `Option` and `FilterIndices`, which stands in for a `filter(...)` query |
| `text.dfy` | ASCII case mapping and substring containment (`__icontains`) |
| `models.dfy` | records, time and fines, copy accounting, the `Store` class and its save and return hooks |
| `serializers.dfy` | `current_fine` and `available_copies` |
| `views.dfy` | the endpoints |
| `tasks.dfy` | the scheduled and queued jobs |
| `scenarios.dfy` | concrete walk-throughs on small stores, proved from the handlers' contracts |

Conventions:

- A primary key is the position of a row in its table.
- Times are whole seconds, and `DAY` is 86400.
- `timedelta.days` is division by `DAY` rounded toward minus infinity.
- The caller of an endpoint is given by its key, `actor`.
- An exception a view does not catch is answered as `InternalServerError`.

The accounting follows the code, and the code behaves as follows:

- **Borrowing lowers `available_copies` by two.** The view creates the loan.
  The loan's save hook (`clean` → `can_borrow`) takes a copy off `quantity`,
  and the new loan is also counted as outstanding.
- **Returning raises it by two.**
- **After the only copy is borrowed, the available count is -1, not 0.**
  `available_copies` is never clamped, so it can go negative.
- **Fulfilling a reservation lowers it by three.** The hook and then the
  view (`library/views.py:377`) each take a copy off `quantity`.
- **Fulfilling loses one copy.** `Holdings` counts the copies on the shelf
  plus those out on loan. Borrowing, returning and approving keep it;
  fulfilling loses one.
- **Fulfilling ignores the reservation's status.** It stores `Fulfilled`,
  which is not one of the declared status choices.
- **`quantity` can never be negative.** It is a `PositiveIntegerField`.
  The model assumes the database enforces its `>= 0` check and refuses a
  negative value; `Store.Valid()` includes this.
- **Fulfilling the last copy fails halfway.** The view's second decrement
  is refused, so the request fails with a server error. The loan and the
  hook's decrement are already stored, and the reservation stays as it was.
  This assumes requests are not wrapped in a transaction
  (`ATOMIC_REQUESTS` off, Django's default).
- **Approving a borrow request has no availability check of its own.**
  When no copy is available, the hook's `ValueError` escapes the view and
  nothing is stored.

## Model

| member | source | states |
|---|---|---|
| Prelude.FilterIndices | library/views.py:234-237 | a query selects exactly the keys below `n` whose row satisfies the condition, each once, in increasing key order, and never more than `n` of them |
| Prelude.FilterWeaker | library/views.py:234-237 | a filter whose condition implies another's returns no more rows; this is why the overdue count cannot exceed the borrowed count |
| Prelude.FilterSame | library_system/tasks.py:108-110 | two conditions that agree on every row select the same rows |
| Prelude.FilterCount | library/views.py:233-237 | the length of a filter's result is the number of rows satisfying its condition, so `count()` and the filtered list agree |
| Prelude.FilterNone | library_system/tasks.py:108-109 | a condition no row meets selects nothing |
| Text.Lower | library/views.py:40 | lower-casing keeps the length and lower-cases every letter in place |
| Text.LowerIdempotent | library/views.py:111 | lower-casing an already lower-cased role changes nothing |
| Text.ContainsAt | library/views.py:218-222 | the containment used by the search holds exactly when the query occurs at some position of the text |
| Text.ContainsIgnoreCase | library/views.py:219-221 | `__icontains`: the lower-cased query occurs at some position of the lower-cased field |
| Text.EmptyQueryMatches | library/views.py:215-217 | the default empty query is contained in every field |
| Models.FloorDays | library/models.py:66 | whole days of a duration, rounded down: `d` days fit in it and `d + 1` do not |
| Models.NowPlus14Days | library/models.py:5-9 | the default due date is exactly fourteen days after creation, and falls fourteen calendar days later |
| Models.Fine | library/models.py:66-67 | the fine is never negative and is a multiple of five; nothing is owed before a full day past due; otherwise fine/5 is the number of whole days past due |
| Models.FineMonotone | library/models.py:66-67 | settling later never costs less |
| Models.NewUser | library/models.py:17 | a new account has the username and e-mail it was registered with and gets the role `member` |
| Models.OverdueDays | library/models.py:66 | zero when settled less than a full day past due; otherwise the whole days past due, rounded down |
| Models.NewLoan | library/models.py:48-54 | a new loan is outstanding, owes nothing, and is due at the given date or else fourteen days after it was made |
| Models.NewReservation | library/models.py:90-93 | a new reservation is pending, for the given book, user and time |
| Models.NewBorrowRequest | library/models.py:108-111 | a new borrow request is pending, for the given book, user and time |
| Models.OutstandingCount | library/models.py:42 | the number of outstanding loans of a book is at most the number of loans |
| Models.OutstandingAppend | library/models.py:42 | storing one more loan raises the count by one exactly when that loan is outstanding for the book |
| Models.OutstandingReplace | library/models.py:42 | overwriting one loan changes the count only by that row's own difference |
| Models.AvailableCopies | library/models.py:39-42 | the available count lies between quantity less the number of loans and quantity |
| Models.AvailableCanBeNegative | library/models.py:39-42 | with quantity 0 and one loan out, the available count is -1 |
| Models.Returned | library/models.py:63-67 | a settled loan is stamped with the return time and charged the fine for that time; its user, book, dates are kept |
| Models.Store.constructor | library/models.py:11-34 | a store holding the given accounts and books has no loans, reservations or requests and satisfies `Valid` |
| Models.Store.CanBorrow | library/models.py:56-61 | a loan not yet stored passes exactly when a copy is available, and then takes one off `quantity`; a stored loan always passes and changes nothing |
| Models.Store.Save | library/models.py:72-79 | storing a new outstanding loan with no copy available is refused and changes nothing; otherwise the loan is inserted or overwritten; only a new outstanding loan moves `quantity`, costing its book two available copies and keeping its holdings; other books are untouched |
| Models.Store.ReturnBook | library/models.py:63-70 | an outstanding loan is settled and one copy goes back on `quantity`, giving back two available copies and keeping the holdings; a returned loan is left alone |
| Serializers.CurrentFine | library/serializers.py:42-50 | a returned loan shows its stored fine; an outstanding one shows the fine it would owe now, a non-negative multiple of five that is zero before a full day past due |
| Serializers.SettledFineMatchesLiveFine | library/serializers.py:47-50 | the fine stored by a return equals the live fine at that moment, and is shown unchanged ever after |
| Serializers.NewLoanOwesNothing | library/serializers.py:47-49 | a loan with the default due date shows no fine during its first fifteen days |
| Serializers.AvailableCopiesField | library/serializers.py:25-27 | the field is the annotated value when the query annotated one, and the `available_copies` property otherwise |
| Views.IsLibrarian | library/views.py:43 | the librarian check: the role is nine characters that read `librarian` when lower-cased |
| Views.IsStaff | library/views.py:111 | the staff check (also at lines 155, 293 and 337): a librarian, or a five-character role that reads `admin` when lower-cased |
| Views.RoleGatesIgnoreCase | library/views.py:40-43 | the librarian and staff gates ignore letter case, and a librarian passes the staff gate |
| Views.RoleExamples | library/views.py:111 | `Librarian`, `ADMIN` and `LibRarian` pass the gates; a newly registered account does not |
| Views.BorrowBook | library/views.py:38-78 | the order of answers: unknown book 404; librarian without user id 400; unknown user 404; no copy 400; bad date 400; otherwise 201. A 201 appends a loan for the target with the requested or default due date and takes one copy off `quantity`; nothing else changes. Only a librarian can lend to someone else. The book loses two available copies |
| Views.ReserveBook | library/views.py:86-102 | unknown book 404; a book with a copy available 400; otherwise a pending reservation is appended |
| Views.ReturnLoan | library/views.py:110-125 | non-staff 403; unknown loan 404; an already returned loan 400; otherwise the loan is settled, one copy goes back, and the fine for now is answered |
| Views.CancelReservation | library/views.py:350-357 | unknown reservation 404; not pending 400; otherwise its status becomes cancelled and nothing else changes |
| Views.FulfillReservation | library/views.py:362-385 | unknown 404; no copy available 400, whatever the status; last copy 500 after the loan and one decrement were stored; otherwise a loan is appended, `quantity` drops by two and the status becomes fulfilled; that costs three available copies and loses one copy from the holdings |
| Views.HasPendingRequest | library/views.py:285 | the filter for the caller's pending requests on the book finds a row exactly when such a request exists |
| Views.PendingAfterRequest | library/views.py:285-288 | appending a request gives its own user and book a pending request and leaves every other user and book as before; `CreateBorrowRequest` relies on it |
| Views.CreateBorrowRequest | library/views.py:284-290 | a caller with a pending request for the book gets 400; a book that does not exist breaks the foreign key (500); otherwise a pending request is appended, after which the same user and book have a pending request (so a repeat gets 400) and every other user and book is answered as before |
| Views.ProcessBorrowRequest | library/views.py:292-318 | non-staff 403; unknown request 404. `approve` stores a loan and marks the request approved, keeping the holdings; with no copy available the hook's error gives 500 and nothing changes. `reject` marks it rejected. Any other action gives 400 |
| Views.RegisterUser | library/views.py:322-331 | a missing field 400; a username already taken 500; otherwise a `member` account is appended, which passes no staff gate |
| Views.BorrowedBooks | library/views.py:133-139 | exactly the outstanding loans: all of them for a librarian, the caller's own otherwise |
| Views.ListBooks | library/views.py:148-152 | exactly the books whose quantity is positive |
| Views.SearchBooks | library/views.py:214-224 | exactly the books whose title, author and isbn each contain their query, ignoring case |
| Views.EmptySearchFindsAll | library/views.py:214-224 | a search with no parameters returns every book |
| Views.LoanedRowsCount | library/views.py:240-241 | the filtered aggregate counts exactly the outstanding loans of the book |
| Views.AnnotatedAvailable | library/views.py:240-247 | the annotated availability always equals the `available_copies` property |
| Views.DashboardAvailabilityAgrees | library/serializers.py:25-27 | the serialized availability is the same with or without the annotation |
| Views.OutstandingRowsCount | library/views.py:234 | the borrowed filter has exactly one entry per outstanding loan |
| Views.OverdueRowsCount | library/views.py:235-237 | the overdue filter has exactly one entry per outstanding loan due before now |
| Views.Dashboard | library/views.py:232-276 | the total is the number of books; borrowed is the number of outstanding loans; overdue is the number of outstanding loans due before now, never more than borrowed; low availability is exactly the books in stock with at most two available; pending is exactly the pending requests |
| Tasks.LocalPart | library_system/tasks.py:20 | the part of the address before the first `@`: a prefix with no `@`, followed by `@` when shorter than the address |
| Tasks.Capitalize | library_system/tasks.py:20 | the result is as long as the text, its first character upper-cased and every later one lower-cased |
| Tasks.DisplayName | library_system/tasks.py:20 | the greeting is as long as the local part, has no `@`, starts with the upper-cased first letter, and lower-cases the rest |
| Tasks.LocalPartOfPlainText | library_system/tasks.py:20 | a text without `@` is its own local part |
| Tasks.DisplayNameIdempotent | library_system/tasks.py:20 | deriving the greeting from a greeting changes nothing |
| Tasks.LocalPartOfAddress | library_system/tasks.py:20 | the local part of `name@domain` is `name` when `name` has no `@` |
| Tasks.SendBorrowEmail | library_system/tasks.py:13-49 | the confirmation goes to the borrower's address and names the book and due date; it greets them by the capitalized text before the first `@` (an `@`-free prefix of the capitalized address, as long as the local part); success is reported exactly when the backend delivers, and a header error and any other failure each get their own report |
| Tasks.BorrowMailGreeting | library_system/tasks.py:20 | a borrower at `name@domain` is greeted as `name` capitalized |
| Tasks.Selects | library_system/tasks.py:53-78 | a swept loan is outstanding; one due today is due within a day of now, either side |
| Tasks.HasEmail | library_system/tasks.py:59 | a reminder is attempted only for an existing borrower with a non-empty address |
| Tasks.SendReminders | library_system/tasks.py:57-71 | the count is exactly the selected loans whose borrower has an address and whose mail was accepted, and never more than the selected loans |
| Tasks.SendOverdueNotifications | library_system/tasks.py:51-72 | counts the accepted reminders for outstanding loans past due |
| Tasks.SendDueDateReminders | library_system/tasks.py:74-95 | counts the accepted reminders for outstanding loans due on today's date |
| Tasks.ExpiredMeansOverThreeDays | library_system/tasks.py:106-108 | `Expired` at the cutoff of `now` holds exactly for reservations still pending and more than three days old; a cancelled one never expires again, and expiry persists at later sweeps |
| Tasks.CancelExpired | library_system/tasks.py:110 | the update cancels exactly the reservations pending since before the cutoff and leaves every other row as it was |
| Tasks.ExpiredAreChanged | library_system/tasks.py:108-110 | the rows counted are exactly the rows the update changes |
| Tasks.CancelExpiredSettles | library_system/tasks.py:108-110 | after the update nothing is expired, and a second update changes nothing |
| Tasks.AutoCancelExpiredReservations | library_system/tasks.py:100-112 | reservations pending for more than three days are cancelled, the rest untouched, and the count is the number of rows changed |
| Scenarios.SingleCopyScenario | library/views.py:38-125 | one copy: borrowing leaves quantity 0 and availability -1; a second borrow is refused; a return 14 days late charges 70 and leaves one available |
| Scenarios.TwoLoansOut | library/views.py:38-78 | four copies, two borrows: quantity 2, availability 0 |
| Scenarios.FulfilScenario | library/views.py:362-385 | reserving with nothing available succeeds; fulfilling is refused until a return; afterwards quantity goes 3 → 1 and availability 2 → -1 |
| Scenarios.LastCopyFulfilScenario | library/views.py:362-385 | fulfilling the last copy answers 500 with the loan stored, quantity 0 and the reservation still pending |
| Scenarios.ExpiryScenario | library_system/tasks.py:100-112 | a reservation exactly three days old survives the sweep; one second later it is cancelled; a rerun cancels nothing |
| Scenarios.FineExamples | library/models.py:66-67 | ten days late owes 50; a second short of a full day late owes nothing |
| Scenarios.DisplayNameExample | library_system/tasks.py:20 | `jO.d@x` is greeted as `Jo.d` |

## Left out

- **Persistence:** the ORM is left out. Tables are sequences, and keys are positions in them.
- **User ids:** a `user_id` that is missing or falsy (an empty string, or 0) is modelled as `None`. A non-numeric `user_id` makes the user lookup raise `ValueError`, which answers 500; `BorrowBook` takes the id as a number and cannot express that input.
- **Concurrency:** two requests racing on the same book are not modelled. Each handler runs alone.
- **Authentication:** JWT issuing (`MyTokenObtainPairView`, `MyTokenObtainPairSerializer`) and the login requirement are left out. The caller's key is a parameter.
- **Passwords:** hashing is left out. A password only has to be non-empty.
- **Account normalisation:** `create_user` lower-cases the domain of the address and NFKC-normalises the username. `Views.RegisterUser` and `Models.NewUser` store both as given. Nothing in the core reads the address beyond testing that it is non-empty.
- **Database settings:** the last-copy failure of `Views.FulfillReservation` rests on two settings outside the code: the database enforces the `>= 0` check of `PositiveIntegerField`, and `ATOMIC_REQUESTS` is off. With a transaction per request the loan and the first decrement would be rolled back too.
- **Routing and admin:** `library/urls.py`, `library_system/urls.py`, `library/admin.py` and the Celery app configuration (`library_system/celery.py`) are not part of this model.
- **Book create, update and delete; user list:** the logic of `BookListView.post`, `BookDetailView` and `UserListView` beyond the staff gate is serializer validation and a plain store, so they are not modelled. `BookDetailView.get` is a lookup by key.
- **UserReservationsView:** it is the caller's reservations, a plain filter, and is not modelled.
- **ExportReservationsCSVView and BookReservationsView:** the CSV export is left out, as are the queue view's sorting, search and pagination. These are output formatting and ORM ordering.
- **Dashboard top five:** `most_borrowed_books` orders by availability and takes five. The order of ties is decided by the database, so it is left out.
- **Dates and time zones:** `strptime` parsing is an input; a due date is a parsed time, absent, or `Malformed`. The calendar date of a time is whole days since the epoch, which is UTC. Time zones are not modelled.
- **Money:** fines are integers. The `Decimal` column and the `float` conversion in `get_current_fine` are not modelled, and neither is the six-digit limit of `fine_amount`.
- **Mail:** rendering, message text and actual sending are left out. Whether the backend accepts a message is an input: a `MailOutcome`, or the `send` oracle for the sweeps. Logging is left out too.
- **Borrow confirmation dispatch:** `BorrowBook` does not model queuing the confirmation mail (`apply_async`). The job itself is `SendBorrowEmail`.
- **Response bodies:** message strings and serialized payloads are not modelled. The handlers answer with the status and the affected key.
- **Unused Book fields:** cover image, description, category, `is_borrowed`, `borrowed_by` and `due_date` are not modelled. Nothing in the core reads or writes them.
- **Text:** case mapping covers ASCII letters only. Python's `lower` and `capitalize` also map other Unicode letters, and `capitalize` uses title case for the first character.
- **Length limits:** the `max_length` limits of the character fields and the uniqueness of `isbn` are not modelled. Only the uniqueness of usernames, which registration relies on, is modelled.
