/**
 * The book service over in-memory stores: a class whose fields are the
 * catalog, the users, the loan history and the identity counter. Each
 * operation is proved against its function in Ledger or Statistics.
 */
module Service {
  import opened Wrappers
  import opened Ledger
  import opened Statistics

  class BookService {
    var books: seq<Book>
    var users: seq<User>
    var histories: seq<LoanHistory>
    var nextId: nat

    ghost function State(): Store
      reads this
    {
      Store(books, users, histories, nextId)
    }

    ghost predicate Valid()
      reads this
    {
      Ledger.Valid(State())
    }

    constructor ()
      ensures Valid() && State() == EmptyStore
    {
      books, users, histories, nextId := [], [], [], 0;
    }

    /** Stores a user under a fresh identity, as the user repository's save does */
    method RegisterUser(name: string, age: Option<int>) returns (user: User)
      requires Valid()
      modifies this
      ensures Valid()
      ensures user == User(old(nextId), name, age) && users == old(users) + [user]
      ensures books == old(books) && histories == old(histories) && nextId == old(nextId) + 1
    {
      ghost var before := State();
      user := User(nextId, name, age);
      users := users + [user];
      nextId := nextId + 1;
      RegisterUserKeepsValid(before, name, age);
    }

    /**
     * Stores a loan record directly, as the loan-history repository's save
     * does: the loan rule is not checked, so this may break AtMostOneLoaned.
     */
    method SaveHistory(user: User, bookName: string, status: LoanStatus) returns (record: LoanHistory)
      requires Valid() && user in users
      modifies this
      ensures Valid()
      ensures record == LoanHistory(old(nextId), user.id, bookName, status)
      ensures histories == old(histories) + [record]
      ensures books == old(books) && users == old(users) && nextId == old(nextId) + 1
    {
      ghost var before := State();
      record := LoanHistory(nextId, user.id, bookName, status);
      histories := histories + [record];
      nextId := nextId + 1;
      ghost var k :| 0 <= k < |before.users| && before.users[k] == user;
      SaveHistoryKeepsValid(before, user.id, bookName, status);
    }

    method SaveBook(name: string, bookType: BookType)
      requires Valid()
      modifies this
      ensures Valid()
      ensures State() == Ledger.SaveBook(old(State()), name, bookType)
    {
      ghost var before := State();
      books := books + [Book(nextId, name, bookType)];
      nextId := nextId + 1;
      SaveBookKeepsValid(before, name, bookType);
    }

    /** Loans a book; a refused loan changes nothing */
    method LoanBook(userName: string, bookName: string) returns (error: Option<LoanError>)
      requires Valid()
      modifies this
      ensures Valid()
      ensures match Ledger.LoanBook(old(State()), userName, bookName)
              case Ok(s) => error == None && State() == s
              case Err(e) => error == Some(e) && State() == old(State())
      ensures AtMostOneLoaned(old(histories)) ==> AtMostOneLoaned(histories)
    {
      ghost var before := State();
      LoanBookKeepsValid(before, userName, bookName);
      if AtMostOneLoaned(before.histories) {
        LoanBookKeepsAtMostOneLoaned(before, userName, bookName);
      }
      var u := UserIndex(users, userName);
      if u.None? {
        return Some(UserNotFound);
      }
      if IsOnLoan(histories, bookName) {
        return Some(AlreadyLoaned);
      }
      histories := histories + [LoanHistory(nextId, users[u.value].id, bookName, Loaned)];
      nextId := nextId + 1;
      error := None;
    }

    /** Flips the user's active loan of the book to RETURNED; a refused return changes nothing */
    method ReturnBook(userName: string, bookName: string) returns (error: Option<LoanError>)
      requires Valid()
      modifies this
      ensures Valid()
      ensures match Ledger.ReturnBook(old(State()), userName, bookName)
              case Ok(s) => error == None && State() == s
              case Err(e) => error == Some(e) && State() == old(State())
      ensures AtMostOneLoaned(old(histories)) ==> AtMostOneLoaned(histories)
    {
      ghost var before := State();
      ReturnBookKeepsValid(before, userName, bookName);
      if AtMostOneLoaned(before.histories) {
        ReturnBookKeepsAtMostOneLoaned(before, userName, bookName);
      }
      var u := UserIndex(users, userName);
      if u.None? {
        return Some(UserNotFound);
      }
      var k := ActiveLoanIndex(histories, users[u.value].id, bookName);
      if k.None? {
        return Some(LoanNotFound);
      }
      histories := histories[k.value := histories[k.value].(status := Returned)];
      error := None;
    }

    /** The number of loan records currently LOANED */
    method CountLoanedBook() returns (n: nat)
      ensures n == CountLoaned(histories) == |LoanedPositions(histories)|
    {
      n := CountLoaned(histories);
      CountLoanedIsCardinality(histories);
    }

    /** The per-type report over the catalog */
    method GetBookStatistics() returns (stats: seq<BookStat>)
      ensures Summarizes(stats, books) && |stats| == |TypesOf(books)|
    {
      stats := Statistics.Statistics(books);
      SummarizedSize(stats, books);
    }
  }

  /** Registering a book on an empty catalog leaves exactly that book */
  method SaveBookScenario() returns (books: seq<Book>)
    ensures |books| == 1 && books[0].name == "긴긴밤" && books[0].bookType == Computer
  {
    var service := new BookService();
    service.SaveBook("긴긴밤", Computer);
    books := service.books;
  }

  /** A first loan creates one LOANED record for the book and the user found by name */
  method LoanBookScenario() returns (histories: seq<LoanHistory>, user: User)
    ensures |histories| == 1
    ensures histories[0].bookName == "긴긴밤" && histories[0].userId == user.id && histories[0].status == Loaned
  {
    var service := new BookService();
    service.SaveBook("긴긴밤", Computer);
    user := service.RegisterUser("daeun", None);
    var error := service.LoanBook("daeun", "긴긴밤");
    histories := service.histories;
  }

  /** Loaning a book that a record already holds as LOANED is refused with its message */
  method LoanBookFailScenario() returns (error: Option<LoanError>, histories: seq<LoanHistory>)
    ensures error == Some(AlreadyLoaned) && error.value.Message() == Some("이미 대출되어 있는 책입니다.")
    ensures |histories| == 1
  {
    var service := new BookService();
    service.SaveBook("긴긴밤", Computer);
    var user := service.RegisterUser("daeun", None);
    var record := service.SaveHistory(user, "긴긴밤", Loaned);
    assert service.histories[0] == record;
    error := service.LoanBook("daeun", "긴긴밤");
    histories := service.histories;
  }

  /** Returning flips the record to RETURNED without a catalog entry and without a new record */
  method ReturnBookScenario() returns (histories: seq<LoanHistory>)
    ensures |histories| == 1 && histories[0].status == Returned
  {
    var service := new BookService();
    var user := service.RegisterUser("daeun", None);
    var record := service.SaveHistory(user, "긴긴밤", Loaned);
    assert service.histories[0] == record;
    var error := service.ReturnBook("daeun", "긴긴밤");
    histories := service.histories;
  }

  /** RETURNED records are not counted: LOANED, RETURNED, RETURNED gives one */
  method CountLoanedBookScenario() returns (count: nat)
    ensures count == 1
  {
    var service := new BookService();
    var user := service.RegisterUser("daeun", None);
    var a := service.SaveHistory(user, "A", Loaned);
    var b := service.SaveHistory(user, "B", Returned);
    var c := service.SaveHistory(user, "C", Returned);
    assert service.histories == [a, b, c];
    CountLoanedExample(a, b, c);
    count := service.CountLoanedBook();
  }

  /** Two COMPUTER books and one ECONOMY book give two entries, counting 2 and 1 */
  method GetBookStatisticsScenario() returns (stats: seq<BookStat>)
    ensures |stats| == 2
    ensures CountFor(stats, Computer) == Some(2) && CountFor(stats, Economy) == Some(1)
  {
    var service := new BookService();
    service.SaveBook("A", Computer);
    service.SaveBook("B", Computer);
    service.SaveBook("C", Economy);
    var books := service.books;
    StatisticsExample(books);
    stats := service.GetBookStatistics();
  }
}
