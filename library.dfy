/**
  The library's store and its loan lifecycle: adding books and customers,
  lending and returning books, and the guarded removal of books and
  customers. Each operation changes the four tables in place; the clock
  reading and the operator's confirmation answer are parameters.
*/
module LibraryStore {
  import opened DuePolicy
  import opened Tables

  /** The outcome of a request to lend a book. */
  datatype LoanOutcome = Lent(due: DueAt) | BookNotFound | AlreadyLoaned

  /** The outcome of a request to return a book. */
  datatype ReturnOutcome = ReturnedOnTime | ReturnedLate | LoanNotFound

  /** The outcome of a request to delete a book or a customer. */
  datatype RemoveOutcome = Removed | NotFound | StillLent | Cancelled

  /** A character with an upper-case ASCII letter replaced by its lower case. */
  function LowerAscii(c: char): char {
    if 'A' <= c <= 'Z' then (c as int - 'A' as int + 'a' as int) as char else c
  }

  /** The operator confirms a deletion with an answer that reads "y" once
      put in lower case: a single letter y in either case. */
  predicate Confirms(answer: string)
    ensures Confirms(answer) <==> |answer| == 1 && LowerAscii(answer[0]) == 'y'
  {
    answer == "y" || answer == "Y"
  }

  class Library {
    var books: map<int, Book>
    var customers: map<int, Customer>
    var loans: map<LoanKey, Loan>
    var lateLoans: seq<LateLoan>

    ghost predicate Valid()
      reads this
    {
      Consistent(books, loans)
    }

    /** A store whose four tables are empty. */
    constructor ()
      ensures Valid()
      ensures books == map[] && customers == map[] && loans == map[] && lateLoans == []
    {
      books, customers, loans, lateLoans := map[], map[], map[], [];
    }

    /** Registers a customer under a fresh id. */
    method AddCustomer(name: string, city: string, age: int) returns (id: int)
      requires Valid()
      modifies this
      ensures Valid()
      ensures id !in old(customers)
      ensures customers == old(customers)[id := Customer(name, city, age)]
      ensures books == old(books) && loans == old(loans) && lateLoans == old(lateLoans)
    {
      id := NextRowId(customers.Keys);
      customers := customers[id := Customer(name, city, age)];
    }

    /** Puts a new book on the shelf list under a fresh id; every new book
        starts out available. */
    method AddBook(name: string, author: string, yearPublished: int, loanType: int) returns (id: int)
      requires Valid()
      modifies this
      ensures Valid()
      ensures id !in old(books)
      ensures books == old(books)[id := Book(name, author, yearPublished, loanType, Available)]
      ensures customers == old(customers) && loans == old(loans) && lateLoans == old(lateLoans)
    {
      id := NextRowId(books.Keys);
      var book := Book(name, author, yearPublished, loanType, Available);
      AddBookKeepsConsistent(books, loans, id, book);
      books := books[id := book];
    }

    /** Deletes a book, refusing one that does not exist or is lent out, and
        only when the operator confirms. */
    method RemoveBook(bookId: int, answer: string) returns (outcome: RemoveOutcome)
      requires Valid()
      modifies this
      ensures Valid()
      ensures bookId !in old(books) ==> outcome == NotFound
      ensures bookId in old(books) && old(books)[bookId].status == Loaned ==> outcome == StillLent
      ensures bookId in old(books) && old(books)[bookId].status == Available ==>
        outcome == if Confirms(answer) then Removed else Cancelled
      ensures books == if outcome == Removed then old(books) - {bookId} else old(books)
      ensures customers == old(customers) && loans == old(loans) && lateLoans == old(lateLoans)
    {
      if bookId !in books {
        return NotFound;
      }
      if books[bookId].status == Loaned {
        return StillLent;
      }
      if Confirms(answer) {
        RemoveBookKeepsConsistent(books, loans, bookId);
        books := books - {bookId};
        outcome := Removed;
      } else {
        outcome := Cancelled;
      }
    }

    /** Deletes a customer, refusing one that does not exist or still has a
        book on loan, and only when the operator confirms. */
    method RemoveCustomer(custId: int, answer: string) returns (outcome: RemoveOutcome)
      requires Valid()
      modifies this
      ensures Valid()
      ensures custId !in old(customers) ==> outcome == NotFound
      ensures custId in old(customers) && CustomerHasLoan(old(loans), custId) ==> outcome == StillLent
      ensures custId in old(customers) && !CustomerHasLoan(old(loans), custId) ==>
        outcome == if Confirms(answer) then Removed else Cancelled
      ensures customers == if outcome == Removed then old(customers) - {custId} else old(customers)
      ensures books == old(books) && loans == old(loans) && lateLoans == old(lateLoans)
    {
      if custId !in customers {
        return NotFound;
      }
      if CustomerHasLoan(loans, custId) {
        return StillLent;
      }
      if Confirms(answer) {
        customers := customers - {custId};
        outcome := Removed;
      } else {
        outcome := Cancelled;
      }
    }

    /** Lends a book to a customer at `now`. A book that does not exist or
        is already lent out is refused and nothing changes; otherwise one
        open loan is added, dated today and due as the book's loan type
        says, and the book is marked loaned. The customer is not looked up. */
    method LoanBook(custId: int, bookId: int, now: int) returns (outcome: LoanOutcome)
      requires Valid()
      modifies this
      ensures Valid()
      ensures bookId !in old(books) ==> outcome == BookNotFound
      ensures bookId in old(books) && old(books)[bookId].status == Loaned ==> outcome == AlreadyLoaned
      ensures outcome.Lent? <==> bookId in old(books) && old(books)[bookId].status == Available
      ensures !outcome.Lent? ==> books == old(books) && loans == old(loans)
      ensures outcome.Lent? ==>
        && outcome.due == DueFor(old(books)[bookId].loanType, now)
        && LoanKey(custId, bookId) !in old(loans)
        && loans == old(loans)[LoanKey(custId, bookId) := Loan(DayOf(now), outcome.due)]
        && books == WithStatus(old(books), bookId, Loaned)
      ensures customers == old(customers) && lateLoans == old(lateLoans)
    {
      if bookId !in books {
        return BookNotFound;
      }
      var book := books[bookId];
      if book.status == Loaned {
        return AlreadyLoaned;
      }
      var due := DueFor(book.loanType, now);
      var key := LoanKey(custId, bookId);
      var loan := Loan(DayOf(now), due);
      LendKeepsConsistent(books, loans, key, loan);
      loans := loans[key := loan];
      books := WithStatus(books, bookId, Loaned);
      outcome := Lent(due);
    }

    /** Takes a book back from a customer at `now`. Without an open loan for
        the pair nothing changes. Otherwise the loan is closed and the book
        marked available, and then the return is classed by the stored due
        value: a return after it appends one late-loan record naming the
        customer and the book, the due value and the return time. */
    method ReturnBook(custId: int, bookId: int, now: int) returns (outcome: ReturnOutcome)
      requires Valid()
      requires LoanKey(custId, bookId) in loans && !OnTime(now, loans[LoanKey(custId, bookId)].due) ==>
        custId in customers
      modifies this
      ensures Valid()
      ensures LoanKey(custId, bookId) !in old(loans) ==>
        outcome == LoanNotFound && books == old(books) && loans == old(loans) && lateLoans == old(lateLoans)
      ensures LoanKey(custId, bookId) in old(loans) ==>
        var due := old(loans)[LoanKey(custId, bookId)].due;
        && bookId in old(books)
        && loans == old(loans) - {LoanKey(custId, bookId)}
        && !BookOnLoan(loans, bookId)
        && books == WithStatus(old(books), bookId, Available)
        && outcome == (if OnTime(now, due) then ReturnedOnTime else ReturnedLate)
        && lateLoans == old(lateLoans) +
             if OnTime(now, due) then []
             else [LateLoan(custId, old(customers)[custId].name, old(books)[bookId].name, due, SecondOf(now))]
      ensures customers == old(customers)
    {
      var key := LoanKey(custId, bookId);
      if key !in loans {
        return LoanNotFound;
      }
      var due := loans[key].due;
      CloseKeepsConsistent(books, loans, key);
      loans := loans - {key};
      books := WithStatus(books, bookId, Available);
      if OnTime(now, due) {
        outcome := ReturnedOnTime;
      } else {
        var record := LateLoan(custId, customers[custId].name, books[bookId].name, due, SecondOf(now));
        lateLoans := lateLoans + [record];
        outcome := ReturnedLate;
      }
    }
  }

  /** A two-day loan made at ten in the morning of `day` and returned
      three days later is recorded as late, beside the date it was due. */
  method ScenarioLateReturn(day: int)
  {
    var library := new Library();
    var ann := library.AddCustomer("Ann", "Haifa", 34);
    var dune := library.AddBook("Dune", "Frank Herbert", 1965, 1);
    var morning := day * MicrosPerDay + 10 * 3600 * MicrosPerSecond;
    assert DayOf(morning) == day;
    var lent := library.LoanBook(ann, dune, morning);
    assert lent == Lent(Date(day + 2));
    var later := morning + 3 * MicrosPerDay;
    var back := library.ReturnBook(ann, dune, later);
    assert back == ReturnedLate;
    assert library.lateLoans == [LateLoan(ann, "Ann", "Dune", Date(day + 2), SecondOf(later))];
    assert library.books[dune].status == Available;
  }

  /** A five-minute loan returned one minute later is on time and leaves
      no late-loan record. */
  method ScenarioOnTimeReturn(noon: int)
  {
    var library := new Library();
    var ben := library.AddCustomer("Ben", "Eilat", 51);
    var quick := library.AddBook("Quick Reads", "Various", 2020, 4);
    var lent := library.LoanBook(ben, quick, noon);
    assert lent == Lent(Instant(SecondOf(noon + 300 * MicrosPerSecond)));
    var back := library.ReturnBook(ben, quick, noon + 60 * MicrosPerSecond);
    assert back == ReturnedOnTime;
    assert library.lateLoans == [];
  }

  /** A book lent to one customer cannot be lent to another before it is
      returned, and neither the book nor its borrower can be deleted. */
  method ScenarioSecondLoanRefused(now: int)
  {
    var library := new Library();
    var ann := library.AddCustomer("Ann", "Haifa", 34);
    var ben := library.AddCustomer("Ben", "Eilat", 51);
    var atlas := library.AddBook("Atlas", "Various", 1999, 3);
    var lent := library.LoanBook(ann, atlas, now);
    assert lent.Lent?;
    lent := library.LoanBook(ben, atlas, now);
    assert lent == AlreadyLoaned;
    var removed := library.RemoveBook(atlas, "y");
    assert removed == StillLent;
    assert CustomerHasLoan(library.loans, ann) by {
      assert LoanKey(ann, atlas) in library.loans;
    }
    removed := library.RemoveCustomer(ann, "Y");
    assert removed == StillLent;
  }
}
