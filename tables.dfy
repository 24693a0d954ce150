/**
  The rows of the library's four tables (books, customers, open loans and
  late loans), the consistency rule that ties a book's status to the open
  loans, and how that rule survives each change the library makes to the
  tables.
*/
module Tables {
  import opened DuePolicy

  datatype Status = Available | Loaned

  datatype Book = Book(name: string, author: string, yearPublished: int, loanType: int, status: Status)

  datatype Customer = Customer(name: string, city: string, age: int)

  /** An open loan is found by the customer and the book it joins. */
  datatype LoanKey = LoanKey(custId: int, bookId: int)

  /** What an open loan records besides its key: the day it was made and
      the due value computed then. */
  datatype Loan = Loan(loanDay: int, due: DueAt)

  /** The record of a return made after its due value: who returned which
      book, the due value and the moment of the return, to the second. */
  datatype LateLoan = LateLoan(custId: int, custName: string, bookName: string, expected: DueAt, actualSecond: int)

  /** Some open loan references the book. */
  predicate BookOnLoan(loans: map<LoanKey, Loan>, bookId: int) {
    exists k :: k in loans && k.bookId == bookId
  }

  /** Some open loan references the customer. */
  predicate CustomerHasLoan(loans: map<LoanKey, Loan>, custId: int) {
    exists k :: k in loans && k.custId == custId
  }

  /** The rule the loan lifecycle keeps: every open loan references a book
      on the shelf list, a book is marked loaned exactly when an open loan
      references it, and no book is in two open loans at once. */
  ghost predicate Consistent(books: map<int, Book>, loans: map<LoanKey, Loan>) {
    && (forall k :: k in loans ==> k.bookId in books)
    && (forall id :: id in books ==> (books[id].status == Loaned <==> BookOnLoan(loans, id)))
    && (forall k, k' :: k in loans && k' in loans && k.bookId == k'.bookId ==> k == k')
  }

  /** The books table after one book's status is set. */
  function WithStatus(books: map<int, Book>, id: int, status: Status): (r: map<int, Book>)
    requires id in books
    ensures r.Keys == books.Keys
    ensures r[id].status == status
    ensures r[id] == books[id].(status := status)
    ensures forall other :: other in books && other != id ==> r[other] == books[other]
  {
    books[id := books[id].(status := status)]
  }

  /** A loaned book is in exactly one open loan, an available one in none. */
  lemma {:induction false} LoanedMeansExactlyOneLoan(books: map<int, Book>, loans: map<LoanKey, Loan>, id: int)
    requires Consistent(books, loans)
    requires id in books
    ensures books[id].status == Loaned <==> |set k | k in loans && k.bookId == id| == 1
    ensures books[id].status == Available <==> (set k | k in loans && k.bookId == id) == {}
  {
    var holders := set k | k in loans && k.bookId == id;
    if books[id].status == Loaned {
      var k :| k in loans && k.bookId == id;
      assert holders == {k};
    } else {
      assert holders == {};
    }
  }

  /** A new book on the shelf list, available and under a fresh id, keeps
      the tables consistent. */
  lemma AddBookKeepsConsistent(books: map<int, Book>, loans: map<LoanKey, Loan>, id: int, book: Book)
    requires Consistent(books, loans)
    requires id !in books && book.status == Available
    ensures Consistent(books[id := book], loans)
  {
  }

  /** Lending an available book under a new open loan and marking it
      loaned keeps the tables consistent; the customer and book cannot
      already have an open loan together. */
  lemma LendKeepsConsistent(books: map<int, Book>, loans: map<LoanKey, Loan>, key: LoanKey, loan: Loan)
    requires Consistent(books, loans)
    requires key.bookId in books && books[key.bookId].status == Available
    ensures key !in loans
    ensures Consistent(WithStatus(books, key.bookId, Loaned), loans[key := loan])
  {
  }

  /** Closing an open loan and marking its book available keeps the tables
      consistent, and leaves the book in no open loan. */
  lemma CloseKeepsConsistent(books: map<int, Book>, loans: map<LoanKey, Loan>, key: LoanKey)
    requires Consistent(books, loans)
    requires key in loans
    ensures key.bookId in books
    ensures !BookOnLoan(loans - {key}, key.bookId)
    ensures Consistent(WithStatus(books, key.bookId, Available), loans - {key})
  {
  }

  /** Deleting an available book from the shelf list keeps the tables
      consistent. */
  lemma RemoveBookKeepsConsistent(books: map<int, Book>, loans: map<LoanKey, Loan>, id: int)
    requires Consistent(books, loans)
    requires id in books && books[id].status == Available
    ensures Consistent(books - {id}, loans)
  {
  }

  /** A non-empty set of ids has a member to pick. */
  lemma NonEmptyHasMember(ids: set<int>)
    requires ids != {}
    ensures exists k :: k in ids
  {
    if forall k :: k !in ids {
      assert false;
    }
  }

  /** The id the store gives a row inserted without one: one more than the
      largest id in the table, or 1 in an empty table. */
  method NextRowId(ids: set<int>) returns (id: int)
    ensures id !in ids
    ensures ids == {} ==> id == 1
    ensures ids != {} ==> id - 1 in ids && forall k :: k in ids ==> k < id
  {
    if ids == {} {
      id := 1;
    } else {
      NonEmptyHasMember(ids);
      var largest :| largest in ids;
      var rest := ids - {largest};
      while rest != {}
        invariant rest <= ids && largest in ids
        invariant forall k :: k in ids && k !in rest ==> k <= largest
        decreases rest
      {
        NonEmptyHasMember(rest);
        var k :| k in rest;
        if k > largest {
          largest := k;
        }
        rest := rest - {k};
      }
      id := largest + 1;
    }
  }
}
