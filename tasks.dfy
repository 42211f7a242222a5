/** The background jobs (library_system/tasks.py): the borrow confirmation
    mail, the two reminder sweeps and the expiry of old reservations.
    Whether the mail server accepts a message is an input: `send(i)` says
    whether the message about loan `i` goes through. */
module Tasks {
  import opened Prelude
  import opened Text
  import opened Models

  /** How long a reservation may stay pending. */
  const EXPIRY: int := 3 * DAY

  // ---------------------------------------------------------------------
  // Borrow confirmation
  // ---------------------------------------------------------------------

  /** `email.split('@')[0]`: the text before the first '@', or all of it. */
  function LocalPart(email: string): (r: string)
    ensures r <= email
    ensures '@' !in r
    ensures |r| < |email| ==> email[|r|] == '@'
  {
    if email == [] || email[0] == '@' then [] else [email[0]] + LocalPart(email[1..])
  }

  /** `str.capitalize()`: first letter upper-case, the rest lower-case. */
  function Capitalize(s: string): (r: string)
    ensures |r| == |s|
    ensures |s| > 0 ==> r[0] == UpperChar(s[0])
    ensures forall k :: 1 <= k < |s| ==> r[k] == LowerChar(s[k])
  {
    if s == [] then [] else [UpperChar(s[0])] + Lower(s[1..])
  }

  /** The name the confirmation mail greets the borrower by. */
  function DisplayName(email: string): (r: string)
    ensures |r| == |LocalPart(email)|
    ensures '@' !in r
    ensures |r| > 0 ==> r[0] == UpperChar(email[0])
    ensures forall k :: 1 <= k < |r| ==> r[k] == LowerChar(email[k])
  {
    Capitalize(LocalPart(email))
  }

  /** An address without '@' is its own local part. */
  lemma LocalPartOfPlainText(s: string)
    requires '@' !in s
    ensures LocalPart(s) == s
  {
  }

  /** Deriving the name from a derived name changes nothing. */
  lemma DisplayNameIdempotent(email: string)
    ensures DisplayName(DisplayName(email)) == DisplayName(email)
  {
    var n := DisplayName(email);
    LocalPartOfPlainText(n);
    var m := DisplayName(n);
    assert |m| == |n|;
    forall k | 0 <= k < |n| ensures m[k] == n[k] {
    }
  }

  /** An address made of a local part and a domain has that local part. */
  lemma {:induction false} LocalPartOfAddress(name: string, domain: string)
    requires '@' !in name
    ensures LocalPart(name + ['@'] + domain) == name
  {
    if name != [] {
      LocalPartOfAddress(name[1..], domain);
      assert (name + ['@'] + domain)[1..] == name[1..] + ['@'] + domain;
    }
  }

  /** What the mail backend does with a message. */
  datatype MailOutcome = Delivered | HeaderRejected | SendFailed(reason: string)

  /** The confirmation message: its recipient, the name it greets them by,
      and the book and due date it announces. */
  datatype ConfirmationMail = ConfirmationMail(to: string, greeting: string, title: string, due: string)

  /** What `send_borrow_email` reports: the message that went out, or why
      none did. Every failure of the backend becomes a report. */
  datatype BorrowMailReport = ConfirmationSent(mail: ConfirmationMail) | InvalidHeader | SendError(reason: string)

  /** `send_borrow_email`: build the greeting from the address, send the
      confirmation for `title` and `due` to `email`, and report the outcome. */
  function SendBorrowEmail(email: string, title: string, due: string, outcome: MailOutcome)
    : (r: BorrowMailReport)
    ensures r.ConfirmationSent? <==> outcome == Delivered
    ensures r.ConfirmationSent? ==> r.mail.to == email && r.mail.title == title && r.mail.due == due
    // the greeting is the local part of the address, capitalized
    ensures r.ConfirmationSent? ==>
              && '@' !in r.mail.greeting
              && |r.mail.greeting| == |LocalPart(email)|
              && r.mail.greeting <= Capitalize(email)
    ensures outcome.HeaderRejected? ==> r == InvalidHeader
    ensures outcome.SendFailed? ==> r == SendError(outcome.reason)
  {
    var greeting := DisplayName(email);
    match outcome
    case Delivered => ConfirmationSent(ConfirmationMail(email, greeting, title, due))
    case HeaderRejected => InvalidHeader
    case SendFailed(reason) => SendError(reason)
  }

  /** A member whose address is `name@domain` is greeted as `name`,
      capitalized. */
  lemma BorrowMailGreeting(name: string, domain: string, title: string, due: string)
    requires '@' !in name
    ensures SendBorrowEmail(name + ['@'] + domain, title, due, Delivered).mail.greeting == Capitalize(name)
  {
    LocalPartOfAddress(name, domain);
  }

  // ---------------------------------------------------------------------
  // Reminder sweeps
  // ---------------------------------------------------------------------

  datatype Sweep = Overdue | DueToday

  /** The sweep's query: outstanding loans past due, or due on today's
      calendar date. */
  predicate Selects(kind: Sweep, l: Loan, now: int)
    ensures Selects(kind, l, now) ==> l.returnedAt.None?
    // a loan due today is due within a day of now, either side
    ensures Selects(kind, l, now) && kind == DueToday ==> now - DAY < l.due < now + DAY
  {
    l.returnedAt.None? &&
    match kind
    case Overdue => l.due < now
    case DueToday => FloorDays(l.due) == FloorDays(now)
  }

  /** `record.user and record.user.email`: the borrower exists and has an
      address to write to. */
  predicate HasEmail(users: seq<User>, l: Loan)
    ensures HasEmail(users, l) ==> l.user < |users| && |users[l.user].email| > 0
  {
    l.user < |users| && users[l.user].email != ""
  }

  function SelectedRows(kind: Sweep, loans: seq<Loan>, now: int): nat -> bool {
    (i: nat) => i < |loans| && Selects(kind, loans[i], now)
  }

  /** The loans whose reminder reaches the mail server and is accepted. */
  function SentRows(kind: Sweep, loans: seq<Loan>, users: seq<User>, now: int, send: nat -> bool)
    : nat -> bool
  {
    (i: nat) => i < |loans| && Selects(kind, loans[i], now) && HasEmail(users, loans[i]) && send(i)
  }

  /** The loop both sweeps share: for each selected loan whose borrower has
      an address, try to send; count what went through and carry on past
      what did not. */
  method SendReminders(kind: Sweep, loans: seq<Loan>, users: seq<User>, now: int, send: nat -> bool)
    returns (count: nat)
    ensures count == |FilterIndices(|loans|, SentRows(kind, loans, users, now, send))|
    ensures count <= |FilterIndices(|loans|, SelectedRows(kind, loans, now))|
  {
    count := 0;
    var i := 0;
    while i < |loans|
      invariant i <= |loans|
      invariant count == |FilterIndices(i, SentRows(kind, loans, users, now, send))|
    {
      var record := loans[i];
      if Selects(kind, record, now) && HasEmail(users, record) {
        if send(i) {
          count := count + 1;
        }
      }
      i := i + 1;
    }
    FilterWeaker(|loans|, SentRows(kind, loans, users, now, send), SelectedRows(kind, loans, now));
  }

  /** `send_overdue_notifications`. */
  method SendOverdueNotifications(db: Store, now: int, send: nat -> bool) returns (count: nat)
    ensures count == |FilterIndices(|db.loans|, SentRows(Overdue, db.loans, db.users, now, send))|
    ensures count <= |FilterIndices(|db.loans|, SelectedRows(Overdue, db.loans, now))|
  {
    count := SendReminders(Overdue, db.loans, db.users, now, send);
  }

  /** `send_due_date_reminders`. */
  method SendDueDateReminders(db: Store, now: int, send: nat -> bool) returns (count: nat)
    ensures count == |FilterIndices(|db.loans|, SentRows(DueToday, db.loans, db.users, now, send))|
    ensures count <= |FilterIndices(|db.loans|, SelectedRows(DueToday, db.loans, now))|
  {
    count := SendReminders(DueToday, db.loans, db.users, now, send);
  }

  // ---------------------------------------------------------------------
  // Reservation expiry
  // ---------------------------------------------------------------------

  /** Pending since strictly before `cutoff`. */
  predicate Expired(r: Reservation, cutoff: int) {
    r.status == Pending && r.reservedAt < cutoff
  }

  /** The sweep at `now` takes exactly the reservations still pending that
      are more than three days old; one it has cancelled is never taken
      again, and one taken now is taken by every later sweep. */
  lemma ExpiredMeansOverThreeDays(r: Reservation, now: int, later: int)
    ensures Expired(r, now - EXPIRY) <==> r.status == Pending && now - r.reservedAt > 3 * DAY
    ensures !Expired(r.(status := Cancelled), later - EXPIRY)
    ensures now <= later && Expired(r, now - EXPIRY) ==> Expired(r, later - EXPIRY)
  {
  }

  function ExpiredRows(rs: seq<Reservation>, cutoff: int): nat -> bool {
    (i: nat) => i < |rs| && Expired(rs[i], cutoff)
  }

  function ChangedRows(before: seq<Reservation>, after: seq<Reservation>): nat -> bool {
    (i: nat) => i < |before| && i < |after| && before[i] != after[i]
  }

  /** The bulk `update(status='cancelled')` over the expired rows. */
  function CancelExpired(rs: seq<Reservation>, cutoff: int): (out: seq<Reservation>)
    ensures |out| == |rs|
    ensures forall i :: 0 <= i < |rs| ==>
              out[i] == if Expired(rs[i], cutoff) then rs[i].(status := Cancelled) else rs[i]
  {
    seq(|rs|, i requires 0 <= i < |rs| =>
      if Expired(rs[i], cutoff) then rs[i].(status := Cancelled) else rs[i])
  }

  /** The rows the update changes are exactly the rows the count counted. */
  lemma ExpiredAreChanged(rs: seq<Reservation>, cutoff: int)
    ensures FilterIndices(|rs|, ExpiredRows(rs, cutoff))
            == FilterIndices(|rs|, ChangedRows(rs, CancelExpired(rs, cutoff)))
  {
    FilterSame(|rs|, ExpiredRows(rs, cutoff), ChangedRows(rs, CancelExpired(rs, cutoff)));
  }

  /** After the update nothing is expired, so a second run at the same
      instant counts nothing and changes nothing. */
  lemma CancelExpiredSettles(rs: seq<Reservation>, cutoff: int)
    ensures FilterIndices(|rs|, ExpiredRows(CancelExpired(rs, cutoff), cutoff)) == []
    ensures CancelExpired(CancelExpired(rs, cutoff), cutoff) == CancelExpired(rs, cutoff)
  {
    var out := CancelExpired(rs, cutoff);
    FilterNone(|rs|, ExpiredRows(out, cutoff));
  }

  /** `auto_cancel_expired_reservations`: count the reservations pending
      since before three days ago, then cancel them all; every other row
      stays as it was. */
  method AutoCancelExpiredReservations(db: Store, now: int) returns (count: nat)
    requires db.Valid()
    modifies db`reservations
    ensures db.Valid()
    ensures db.reservations == CancelExpired(old(db.reservations), now - EXPIRY)
    ensures count == |FilterIndices(|old(db.reservations)|, ExpiredRows(old(db.reservations), now - EXPIRY))|
    ensures count == |FilterIndices(|db.reservations|, ChangedRows(old(db.reservations), db.reservations))|
  {
    var cutoff := now - EXPIRY;
    count := |FilterIndices(|db.reservations|, ExpiredRows(db.reservations, cutoff))|;
    ExpiredAreChanged(db.reservations, cutoff);
    db.reservations := CancelExpired(db.reservations, cutoff);
  }
}
