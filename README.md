# Library loan lifecycle

A Dafny model of the loan lifecycle of a small library record keeper. The
library keeps four tables: books, customers, open loans and late loans. A book
is lent to a customer and later returned. A book's loan type decides when the
loan is due. A return after the due value is recorded as a late loan. Books
and customers can be deleted only when no open loan holds them, and only after
the operator confirms.

The model has three modules:

- `DuePolicy` (`due_policy.dfy`) holds the pure rules. It covers the due value
  each loan type gets and the lateness test applied on return. It also holds
  the label shown for each loan type.
- `Tables` (`tables.dfy`) holds the rows of the four tables. It defines the
  consistency rule: a book is marked loaned exactly when an open loan references
  it, and no book is in two open loans. It has one lemma per table change
  showing that the change keeps the rule. It also models how the store picks
  the id of a new row.
- `LibraryStore` (`library.dfy`) holds the class `Library`. Its map and
  sequence fields are the four tables, and its methods are the operations,
  which change the tables in place. Three scenario methods show what the
  contracts alone let a caller conclude about a late two-day loan, an on-time
  five-minute loan and a refused second loan.

Time is an integer count of microseconds of local wall-clock time, the
resolution of the clock the library reads. The clock reading (`now`) and the
operator's confirmation answer are parameters of the operations. A stored due
value is either a date or a full timestamp to the second, `DueAt.Date(day)` or
`DueAt.Instant(second)`. The source tells these apart by whether the stored
text contains a space. A date is read back as midnight at the start of that
day. So a two-day loan made at ten in the morning is due at midnight at the
start of the second day after, less than two full days later.

The loan-type prompt at Library.py:234 and the label map at Library.py:97
know only types 1 to 4; any other type is labelled "Unknown". Yet
Library.py:182-185 lends a book of any other type for ten days, as if it
were type 3, rather than refusing it. The model follows the code: see
`DuePolicy.DueFor` and `DuePolicy.DueForFollowsPolicy`.

## Model

| member | source | states |
|---|---|---|
| `DuePolicy.DueFor` | Library.py:178-185 | The due value is a timestamp exactly when the loan type is 4; a date due value falls on a later day than the loan; every due value lies strictly after the moment of the loan, so a return in the same instant is never late |
| `DuePolicy.DueForFollowsPolicy` | Library.py:181-185 | The due value agrees with the advertised duration table (1: two days, 2: five days, 3: ten days, 4: five minutes); a type outside the table gets ten days instead of an error |
| `DuePolicy.LoanPeriod` | Library.py:180-185 | A five-minute loan is due more than 299 seconds and at most 300 seconds after the loan, because the timestamp is kept to the second; an n-day loan is due more than n - 1 days and at most n days after the loan, because it is due at the midnight that starts the due day |
| `DuePolicy.ReturnClassification` | Library.py:206 | A return later than the loan time plus the duration is always late; a return within the duration less one unit of the due value's granularity (a day or a second) is always on time |
| `DuePolicy.DateDueAtDayStart` | Library.py:206 | A date due value counts as midnight of its day: on that day a return is on time only at midnight exactly, and late at any later moment |
| `DuePolicy.LatenessIsMonotone` | Library.py:206 | If a return at some moment would be late, a return at any later moment would be late too |
| `DuePolicy.LateRecordOrdered` | Library.py:206-214 | For a late return, the return time written down to the second is never earlier than the due value it is recorded beside |
| `DuePolicy.DueMicros` | Library.py:206 | A stored due value is read back as a whole second; a date alone is read as the midnight that starts that very day, and a timestamp as the start of its own second |
| `DuePolicy.OnTime` | Library.py:206 | Against a date due value, a return is on time exactly when it falls on an earlier day or at that day's midnight exactly; against a timestamp, exactly when it falls in an earlier second or at that second's start exactly |
| `DuePolicy.LoanTypeLabel` | Library.py:97 | The label is "Unknown" exactly for types outside the duration table; for a known type it is that type's advertised duration written out ("2 days", "5 days", "10 days", "5 minutes") |
| `Tables.WithStatus` | Library.py:188 | Setting one book's status changes that book's status only; the set of book ids and every other book are unchanged |
| `Tables.LoanedMeansExactlyOneLoan` | Library.py:175-188 | Under the consistency rule, a book is loaned exactly when one open loan references it, and available exactly when none does |
| `Tables.AddBookKeepsConsistent` | Library.py:65-69 | Adding an available book under a fresh id keeps the consistency rule |
| `Tables.LendKeepsConsistent` | Library.py:175-188 | Lending an available book keeps the consistency rule; no open loan for the same customer and book exists beforehand |
| `Tables.CloseKeepsConsistent` | Library.py:202-203 | Deleting an open loan and marking its book available keeps the consistency rule and leaves no open loan on that book |
| `Tables.RemoveBookKeepsConsistent` | Library.py:135-141 | Deleting an available book keeps the consistency rule |
| `Tables.NextRowId` | Library.py:61-67 | A row inserted without an id gets one more than the largest id in its table, or 1 in an empty table; the id is fresh |
| `LibraryStore.Confirms` | Library.py:139-140 | A deletion is confirmed exactly by a one-character answer whose lower case is "y", that is "y" or "Y"; no other Unicode character lowers to "y" |
| `LibraryStore.Library.constructor` | Library.py:9-40 | On a fresh `library.db` the store starts with four empty tables, which satisfy the consistency rule |
| `LibraryStore.Library.AddCustomer` | Library.py:60-63 | Adds exactly one customer under a fresh id; no other table changes |
| `LibraryStore.Library.AddBook` | Library.py:65-69 | Adds exactly one book under a fresh id with status available; no other table changes; the consistency rule is kept |
| `LibraryStore.Library.RemoveBook` | Library.py:129-145 | A missing book gives NotFound and a lent book gives StillLent; otherwise the book is deleted on a "y" answer in either case, and nothing changes on any other answer; no other table changes; the consistency rule is kept |
| `LibraryStore.Library.RemoveCustomer` | Library.py:147-167 | A missing customer gives NotFound and a customer with any open loan gives StillLent; otherwise the customer is deleted on a "y" answer in either case, and nothing changes on any other answer; no other table changes |
| `LibraryStore.Library.LoanBook` | Library.py:169-190 | A missing book or a lent book is refused and no table changes. Otherwise exactly one open loan (customer, book, today, due value from the book's type) is added under a key that was free, and that book alone becomes loaned; customers and late loans are unchanged; the consistency rule is kept |
| `LibraryStore.Library.ReturnBook` | Library.py:192-216 | Without an open loan for the pair, no table changes. Otherwise the loan is deleted, no open loan on the book remains and the book alone becomes available, late or not. Exactly one late-loan record (customer id and name, book name, due value, return time to the second) is appended exactly when the return is after the due value. Earlier late-loan records are kept unchanged; the consistency rule is kept |

## Left out

- The SQLite connection, cursor, table creation and commits (Library.py:5-40, 331). The store is the `Library` object's four fields.
- Atomicity between the two commits of `return_book` (Library.py:204 and 215), and concurrent use. The program is single-process and attempts neither.
- The text menus, prompts and printed messages (Library.py:218-325), and the `display_*` functions (Library.py:71-109). They are console input and output only. Printed messages become the outcome values the methods return.
- `find_book_by_name` and `find_customer_by_name` (Library.py:111-127). They are `LIKE` queries whose results are only printed.
- Reading the clock and the `strftime`/`strptime` text formats. The clock is the `now` parameter. The two stored formats are the two `DueAt` variants. Time zones and daylight-saving shifts are not modelled: a day is always 86,400 seconds of local time.
- The unused due date computed at Library.py:181. It is overwritten on the next lines and never read.
- LibraryStore.Library.ReturnBook: requires the customer to exist when the return is late. The source looks the customer's name up with `fetchone()[0]` (Library.py:209-210), which fails if `loan_book` lent to a customer id that does not exist. That failure happens after the loan deletion and status update were committed, and it leaves no late-loan record. The model does not describe that crash.
- Tables.NextRowId: does not model the store's fallback when the largest id is already the largest 64-bit integer (the store then picks an unused id at random). Ids are unbounded integers in the model.
- Book status is a two-valued datatype. The source stores text, and only ever writes 'available' or 'loaned'. Any other text would count as available in `loan_book` and `remove_book`.
- The open-loans table has no key in the source. The model keys open loans by (customer, book). Duplicate rows for a pair cannot arise here, because a book must be available to be lent and the consistency rule keeps at most one open loan per book.
- Python's `lower()` on the confirmation answer is modelled as accepting exactly "y" and "Y". No other string lowers to "y".
- A late-loan record keeps the customer id and names but not the book id, and a customer may borrow the same book again. So "a late-loan record never refers to an open loan" is not an invariant of the code, and the model does not state it.
- LibraryStore.Library.constructor: models the first run, on a fresh `library.db`, where `CREATE TABLE IF NOT EXISTS` (Library.py:10-38) leaves four empty tables. A later run resumes from the tables the previous run left in the file. Those tables were reached from empty by the modelled operations, so they satisfy `Valid()`, but the model has no operation that reloads them.
- The end of Python's calendar (year 9999). There `today + timedelta(days=n)` (Library.py:185) and `datetime.now() + timedelta(minutes=5)` (Library.py:183) raise `OverflowError`. The model's clock is unbounded and `LoanBook` never fails this way.
- LibraryStore.Library.LoanBook: reads the clock once. `loan_book` reads it twice, at Library.py:180 for the loan date and at Library.py:183 for a type-4 due value. The model uses one `now` for both, so it does not capture a midnight falling between the two reads.
