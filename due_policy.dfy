/**
  The loan-duration policy and the lateness rule of the library.

  Time is an integer count of microseconds on the local wall clock, the
  resolution of the clock the library reads. A day is the block of
  `MicrosPerDay` microseconds that starts at its midnight, so the date of an
  instant is its count of microseconds divided (rounding down) by
  `MicrosPerDay`.
*/
module DuePolicy {

  datatype Option<T> = None | Some(value: T)

  const MicrosPerSecond: int := 1_000_000
  const SecondsPerMinute: int := 60
  const SecondsPerDay: int := 86_400
  const MicrosPerDay: int := SecondsPerDay * MicrosPerSecond

  /** The calendar day of an instant. */
  function DayOf(now: int): int {
    now / MicrosPerDay
  }

  /** An instant written down to the second, the finest unit the stored
      timestamps keep. */
  function SecondOf(now: int): int {
    now / MicrosPerSecond
  }

  /** A stored expected-return value. A loan records either a date alone or
      a full timestamp; which of the two it is decides how it is read back. */
  datatype DueAt = Date(day: int) | Instant(second: int)

  /** The instant a stored due value is read back as: a date alone is read
      as midnight at the start of that day. */
  function DueMicros(due: DueAt): (t: int)
    ensures t % MicrosPerSecond == 0
    ensures due.Date? ==> t % MicrosPerDay == 0 && DayOf(t) == due.day
    ensures due.Instant? ==> SecondOf(t) == due.second
  {
    match due
    case Date(d) =>
      WholeUnits(d);
      WholeUnits(d * SecondsPerDay);
      d * MicrosPerDay
    case Instant(s) =>
      WholeUnits(s);
      s * MicrosPerSecond
  }

  /** A whole number of seconds or of days, counted in microseconds,
      divides back exactly. */
  lemma WholeUnits(n: int)
    ensures (n * MicrosPerSecond) % MicrosPerSecond == 0 && (n * MicrosPerSecond) / MicrosPerSecond == n
    ensures (n * MicrosPerDay) % MicrosPerDay == 0 && (n * MicrosPerDay) / MicrosPerDay == n
  {
  }

  /** A return at `now` is on time when it is no later than the due instant. */
  predicate OnTime(now: int, due: DueAt)
    ensures due.Date? ==> (OnTime(now, due) <==> DayOf(now) < due.day || now == due.day * MicrosPerDay)
    ensures due.Instant? ==> (OnTime(now, due) <==> SecondOf(now) < due.second || now == due.second * MicrosPerSecond)
  {
    now <= DueMicros(due)
  }

  /** The due value a loan of a book of type `loanType` gets when it is made
      at `now`: type 4 gets a timestamp five minutes ahead, every other type a
      date two, five or ten days ahead, unknown types included. */
  function DueFor(loanType: int, now: int): (due: DueAt)
    ensures due.Instant? <==> loanType == 4
    ensures now < DueMicros(due)
    ensures due.Date? ==> due.day > DayOf(now)
  {
    if loanType == 4 then
      Instant(SecondOf(now + 5 * SecondsPerMinute * MicrosPerSecond))
    else
      Date(DayOf(now) + (if loanType == 1 then 2 else if loanType == 2 then 5 else 10))
  }

  /** A loan duration as the library describes it to its users. */
  datatype Duration = Days(days: nat) | Minutes(minutes: nat)

  /** The table of loan types the library advertises: 1, 2 and 3 are two,
      five and ten days, 4 is five minutes; any other type is unknown. */
  function Policy(loanType: int): Option<Duration> {
    if loanType == 1 then Some(Days(2))
    else if loanType == 2 then Some(Days(5))
    else if loanType == 3 then Some(Days(10))
    else if loanType == 4 then Some(Minutes(5))
    else None
  }

  /** The duration a loan actually gets: the advertised one, and ten days
      for a type the table does not know. */
  function Effective(loanType: int): Duration {
    match Policy(loanType)
    case Some(d) => d
    case None => Days(10)
  }

  /** A duration in microseconds. */
  function Span(d: Duration): int {
    match d
    case Days(n) => n * MicrosPerDay
    case Minutes(m) => m * SecondsPerMinute * MicrosPerSecond
  }

  /** The due value a duration gives a loan made at `now`, defined from the
      duration alone: whole days give the date that many days after today,
      minutes give the timestamp that many minutes ahead, to the second. */
  function Expiry(d: Duration, now: int): DueAt {
    match d
    case Days(n) => Date(DayOf(now) + n)
    case Minutes(_) => Instant(SecondOf(now + Span(d)))
  }

  /** The due value of every loan follows the duration table, and a type the
      table does not know is lent for ten days rather than refused. */
  lemma DueForFollowsPolicy(loanType: int, now: int)
    ensures Policy(loanType).Some? ==> DueFor(loanType, now) == Expiry(Policy(loanType).value, now)
    ensures Policy(loanType).None? ==> DueFor(loanType, now) == Expiry(Days(10), now)
    ensures DueFor(loanType, now) == Expiry(Effective(loanType), now)
  {
  }

  /** How long a borrower really has. A timestamp due value is the full
      duration, less the fraction of a second dropped when it is written
      down; a date due value falls at the midnight that starts the due day,
      so a loan of n days lasts more than n - 1 days and at most n days,
      depending on the hour of the day it was made. */
  lemma LoanPeriod(loanType: int, now: int)
    ensures Effective(loanType).Minutes? ==>
      now + Span(Effective(loanType)) - MicrosPerSecond < DueMicros(DueFor(loanType, now)) <= now + Span(Effective(loanType))
    ensures Effective(loanType).Days? ==>
      now + Span(Effective(loanType)) - MicrosPerDay < DueMicros(DueFor(loanType, now)) <= now + Span(Effective(loanType))
  {
  }

  /** What the policy means for a borrower: a return made more than the
      advertised duration after the loan is always late, and a return made
      within the duration less one unit of the due value's granularity (a
      day for dates, a second for timestamps) is always on time. */
  lemma ReturnClassification(loanType: int, lentAt: int, returnedAt: int)
    ensures returnedAt > lentAt + Span(Effective(loanType)) ==> !OnTime(returnedAt, DueFor(loanType, lentAt))
    ensures Effective(loanType).Days? && returnedAt <= lentAt + Span(Effective(loanType)) - MicrosPerDay + 1 ==>
      OnTime(returnedAt, DueFor(loanType, lentAt))
    ensures Effective(loanType).Minutes? && returnedAt <= lentAt + Span(Effective(loanType)) - MicrosPerSecond + 1 ==>
      OnTime(returnedAt, DueFor(loanType, lentAt))
  {
  }

  /** A date due value is due at the very start of its day: a return at that
      midnight is on time and a return at any later moment of the day is late. */
  lemma DateDueAtDayStart(d: int, now: int)
    requires DayOf(now) == d
    ensures OnTime(now, Date(d)) <==> now == d * MicrosPerDay
  {
  }

  /** Lateness is final: once a return would be late, every later return
      would be late too. */
  lemma LatenessIsMonotone(due: DueAt, now: int, later: int)
    requires now <= later
    ensures !OnTime(now, due) ==> !OnTime(later, due)
  {
  }

  /** The return time recorded for a late return, kept to the second, is
      never earlier than the due value it is recorded beside. */
  lemma LateRecordOrdered(due: DueAt, now: int)
    requires !OnTime(now, due)
    ensures DueMicros(due) <= SecondOf(now) * MicrosPerSecond
  {
  }

  /** The decimal digits of a natural number. */
  function Decimal(n: nat): (s: string)
    ensures |s| >= 1
    decreases n
  {
    if n < 10 then ["0123456789"[n]] else Decimal(n / 10) + ["0123456789"[n % 10]]
  }

  /** How a duration is shown to users. */
  function Describe(d: Duration): string {
    match d
    case Days(n) => Decimal(n) + " days"
    case Minutes(m) => Decimal(m) + " minutes"
  }

  /** The label shown beside a loan for its book's type: the advertised
      duration of a known type, and "Unknown" for every other type. */
  function LoanTypeLabel(loanType: int): (text: string)
    ensures text == "Unknown" <==> Policy(loanType).None?
    ensures Policy(loanType).Some? ==> text == Describe(Policy(loanType).value)
  {
    if loanType == 1 then "2 days"
    else if loanType == 2 then "5 days"
    else if loanType == 3 then "10 days"
    else if loanType == 4 then "5 minutes"
    else "Unknown"
  }
}
