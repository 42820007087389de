/**
 * The library's stores (catalog, users, loan history) as one value, and the
 * book service's three state-changing operations as functions over it:
 * registering a book, loaning a book and returning a book.
 */
module Ledger {
  import opened Wrappers

  datatype BookType = Computer | Economy

  datatype LoanStatus = Loaned | Returned

  datatype Book = Book(id: nat, name: string, bookType: BookType)

  datatype User = User(id: nat, name: string, age: Option<int>)

  /** A loan record: it names its user by id and its book by name only (no link to the catalog) */
  datatype LoanHistory = LoanHistory(id: nat, userId: nat, bookName: string, status: LoanStatus)

  const AlreadyLoanedMessage: string := "이미 대출되어 있는 책입니다."

  /**
   * Why a loan or a return was refused. An already-loaned book is raised as an
   * IllegalArgumentException; the exception type of the other two is not fixed
   */
  datatype LoanError = UserNotFound | AlreadyLoaned | LoanNotFound
  {
    /** The exception message, where the service fixes one */
    function Message(): Option<string> {
      if this == AlreadyLoaned then Some(AlreadyLoanedMessage) else None
    }
  }

  /** The three stores, plus the counter the stores draw fresh identities from */
  datatype Store = Store(books: seq<Book>, users: seq<User>, histories: seq<LoanHistory>, nextId: nat)

  const EmptyStore := Store([], [], [], 0)

  /** Index of the first element of `s` that satisfies `p`, if any */
  function FirstIndex<T>(s: seq<T>, p: T -> bool): (r: Option<nat>)
    ensures r.Some? ==> r.value < |s| && p(s[r.value]) && forall j :: 0 <= j < r.value ==> !p(s[j])
    ensures r.None? ==> forall j :: 0 <= j < |s| ==> !p(s[j])
  {
    if s == [] then None
    else if p(s[0]) then Some(0)
    else match FirstIndex(s[1..], p)
      case None => None
      case Some(i) => Some(i + 1)
  }

  /** The user a request names: the first registered user with that name */
  function UserIndex(users: seq<User>, name: string): (r: Option<nat>)
    ensures r.Some? ==> r.value < |users| && users[r.value].name == name
    ensures r.Some? ==> forall j :: 0 <= j < r.value ==> users[j].name != name
    ensures r.None? <==> forall j :: 0 <= j < |users| ==> users[j].name != name
  {
    FirstIndex(users, (u: User) => u.name == name)
  }

  /** Some record, of any user, has this book on loan */
  predicate IsOnLoan(histories: seq<LoanHistory>, bookName: string) {
    exists i :: 0 <= i < |histories| && histories[i].bookName == bookName && histories[i].status == Loaned
  }

  /** The record a return flips: the first LOANED record of this user for this book */
  function ActiveLoanIndex(histories: seq<LoanHistory>, userId: nat, bookName: string): (r: Option<nat>)
    ensures r.Some? ==>
              && r.value < |histories|
              && histories[r.value] == LoanHistory(histories[r.value].id, userId, bookName, Loaned)
    ensures r.Some? ==> forall j :: 0 <= j < r.value ==>
              !(histories[j].userId == userId && histories[j].bookName == bookName && histories[j].status == Loaned)
    ensures r.None? <==> forall j :: 0 <= j < |histories| ==>
              !(histories[j].userId == userId && histories[j].bookName == bookName && histories[j].status == Loaned)
  {
    FirstIndex(histories, (h: LoanHistory) => h.userId == userId && h.bookName == bookName && h.status == Loaned)
  }

  /** Registers a book under a fresh identity; names need not be unique */
  function SaveBook(s: Store, name: string, bookType: BookType): (r: Store)
    ensures |r.books| == |s.books| + 1 && r.books[..|s.books|] == s.books
    ensures r.books[|s.books|].name == name && r.books[|s.books|].bookType == bookType
    ensures r.users == s.users && r.histories == s.histories
  {
    s.(books := s.books + [Book(s.nextId, name, bookType)], nextId := s.nextId + 1)
  }

  /** Stores a user under a fresh identity, as the user repository's save does */
  function RegisterUser(s: Store, name: string, age: Option<int>): (r: Store)
    ensures |r.users| == |s.users| + 1 && r.users[..|s.users|] == s.users
    ensures r.users[|s.users|].name == name && r.users[|s.users|].age == age
    ensures r.books == s.books && r.histories == s.histories
  {
    s.(users := s.users + [User(s.nextId, name, age)], nextId := s.nextId + 1)
  }

  /**
   * Stores a loan record under a fresh identity, as the loan-history
   * repository's save does: the loan rule is not checked.
   */
  function SaveHistory(s: Store, userId: nat, bookName: string, status: LoanStatus): (r: Store)
    ensures |r.histories| == |s.histories| + 1 && r.histories[..|s.histories|] == s.histories
    ensures r.histories[|s.histories|].userId == userId && r.histories[|s.histories|].bookName == bookName
    ensures r.histories[|s.histories|].status == status
    ensures r.books == s.books && r.users == s.users
  {
    s.(histories := s.histories + [LoanHistory(s.nextId, userId, bookName, status)], nextId := s.nextId + 1)
  }

  /**
   * Loans `bookName` to the user named `userName`, unless the book is already
   * on loan; the catalog is not consulted, since a record names its book only
   */
  function LoanBook(s: Store, userName: string, bookName: string): (r: Result<Store, LoanError>)
    ensures r == Err(UserNotFound) <==> UserIndex(s.users, userName).None?
    ensures r == Err(AlreadyLoaned) <==> UserIndex(s.users, userName).Some? && IsOnLoan(s.histories, bookName)
    ensures r.Err? ==> r.error == UserNotFound || r.error == AlreadyLoaned
    ensures r.Ok? ==>
              && r.value.books == s.books && r.value.users == s.users
              && |r.value.histories| == |s.histories| + 1
              && r.value.histories[..|s.histories|] == s.histories
              && r.value.histories[|s.histories|].bookName == bookName
              && r.value.histories[|s.histories|].userId == s.users[UserIndex(s.users, userName).value].id
              && r.value.histories[|s.histories|].status == Loaned
  {
    match UserIndex(s.users, userName)
    case None => Err(UserNotFound)
    case Some(u) =>
      if IsOnLoan(s.histories, bookName) then Err(AlreadyLoaned)
      else
        var record := LoanHistory(s.nextId, s.users[u].id, bookName, Loaned);
        Ok(s.(histories := s.histories + [record], nextId := s.nextId + 1))
  }

  /** Marks the user's active loan of `bookName` as returned; the catalog is not consulted */
  function ReturnBook(s: Store, userName: string, bookName: string): (r: Result<Store, LoanError>)
    ensures r == Err(UserNotFound) <==> UserIndex(s.users, userName).None?
    ensures r == Err(LoanNotFound) <==>
              && UserIndex(s.users, userName).Some?
              && ActiveLoanIndex(s.histories, s.users[UserIndex(s.users, userName).value].id, bookName).None?
    ensures r.Err? ==> r.error == UserNotFound || r.error == LoanNotFound
    ensures r.Ok? ==>
              var k := ActiveLoanIndex(s.histories, s.users[UserIndex(s.users, userName).value].id, bookName).value;
              && r.value.books == s.books && r.value.users == s.users && r.value.nextId == s.nextId
              && |r.value.histories| == |s.histories|
              && s.histories[k].status == Loaned && s.histories[k].bookName == bookName
              && r.value.histories[k] == s.histories[k].(status := Returned)
              && forall j :: 0 <= j < |s.histories| && j != k ==> r.value.histories[j] == s.histories[j]
  {
    match UserIndex(s.users, userName)
    case None => Err(UserNotFound)
    case Some(u) =>
      match ActiveLoanIndex(s.histories, s.users[u].id, bookName)
      case None => Err(LoanNotFound)
      case Some(k) =>
        Ok(s.(histories := s.histories[k := s.histories[k].(status := Returned)]))
  }

  /** The ledger's consistency rule: no two LOANED records name the same book */
  ghost predicate AtMostOneLoaned(histories: seq<LoanHistory>) {
    forall i, j ::
      0 <= i < j < |histories| && histories[i].status == Loaned && histories[j].status == Loaned ==>
        histories[i].bookName != histories[j].bookName
  }

  /**
   * Identities are below the counter and unique within each store, and every
   * loan record belongs to a registered user.
   */
  ghost predicate Valid(s: Store) {
    && (forall i :: 0 <= i < |s.books| ==> s.books[i].id < s.nextId)
    && (forall i :: 0 <= i < |s.users| ==> s.users[i].id < s.nextId)
    && (forall i :: 0 <= i < |s.histories| ==> s.histories[i].id < s.nextId)
    && (forall i, j :: 0 <= i < j < |s.books| ==> s.books[i].id != s.books[j].id)
    && (forall i, j :: 0 <= i < j < |s.users| ==> s.users[i].id != s.users[j].id)
    && (forall i, j :: 0 <= i < j < |s.histories| ==> s.histories[i].id != s.histories[j].id)
    && (forall i :: 0 <= i < |s.histories| ==> exists j :: 0 <= j < |s.users| && s.users[j].id == s.histories[i].userId)
  }

  lemma SaveBookOnEmptyCatalog(s: Store, name: string, bookType: BookType)
    requires s.books == []
    ensures var r := SaveBook(s, name, bookType);
            |r.books| == 1 && r.books[0].name == name && r.books[0].bookType == bookType
  {
  }

  lemma SaveBookKeepsValid(s: Store, name: string, bookType: BookType)
    requires Valid(s)
    ensures Valid(SaveBook(s, name, bookType))
  {
    var r := SaveBook(s, name, bookType);
    var n := |s.books|;
    assert r.users == s.users && r.histories == s.histories && r.nextId == s.nextId + 1;
    assert r.books == s.books + [Book(s.nextId, name, bookType)];
    forall i, j | 0 <= i < j < |r.books|
      ensures r.books[i].id != r.books[j].id
    {
      assert r.books[i] == s.books[i];
      if j < n {
        assert r.books[j] == s.books[j];
      }
    }
    forall i | 0 <= i < |r.histories|
      ensures exists j :: 0 <= j < |r.users| && r.users[j].id == r.histories[i].userId
    {
      assert i < |s.histories| && r.histories[i] == s.histories[i];
      var j :| 0 <= j < |s.users| && s.users[j].id == s.histories[i].userId;
      assert r.users[j] == s.users[j];
    }
    assert forall i :: 0 <= i < |r.books| ==> r.books[i].id < r.nextId;
    assert forall i :: 0 <= i < |r.users| ==> r.users[i].id < r.nextId;
    assert forall i :: 0 <= i < |r.histories| ==> r.histories[i].id < r.nextId;
    assert forall i, j :: 0 <= i < j < |r.users| ==> r.users[i].id != r.users[j].id;
    assert forall i, j :: 0 <= i < j < |r.histories| ==> r.histories[i].id != r.histories[j].id;
  }

  lemma RegisterUserKeepsValid(s: Store, name: string, age: Option<int>)
    requires Valid(s)
    ensures Valid(RegisterUser(s, name, age))
  {
    var r := RegisterUser(s, name, age);
    var n := |s.users|;
    assert r.books == s.books && r.histories == s.histories && r.nextId == s.nextId + 1;
    assert r.users == s.users + [User(s.nextId, name, age)];
    forall i, j | 0 <= i < j < |r.users|
      ensures r.users[i].id != r.users[j].id
    {
      assert r.users[i] == s.users[i];
      if j < n {
        assert r.users[j] == s.users[j];
      }
    }
    forall i | 0 <= i < |r.histories|
      ensures exists j :: 0 <= j < |r.users| && r.users[j].id == r.histories[i].userId
    {
      assert i < |s.histories| && r.histories[i] == s.histories[i];
      var j :| 0 <= j < |s.users| && s.users[j].id == s.histories[i].userId;
      assert r.users[j] == s.users[j];
    }
    assert forall i :: 0 <= i < |r.books| ==> r.books[i].id < r.nextId;
    assert forall i :: 0 <= i < |r.users| ==> r.users[i].id < r.nextId;
    assert forall i :: 0 <= i < |r.histories| ==> r.histories[i].id < r.nextId;
    assert forall i, j :: 0 <= i < j < |r.books| ==> r.books[i].id != r.books[j].id;
    assert forall i, j :: 0 <= i < j < |r.histories| ==> r.histories[i].id != r.histories[j].id;
  }

  /** A record saved directly keeps the identities valid when its user is registered */
  lemma SaveHistoryKeepsValid(s: Store, userId: nat, bookName: string, status: LoanStatus)
    requires Valid(s)
    requires exists j :: 0 <= j < |s.users| && s.users[j].id == userId
    ensures Valid(SaveHistory(s, userId, bookName, status))
  {
    var r := SaveHistory(s, userId, bookName, status);
    var n := |s.histories|;
    assert r.books == s.books && r.users == s.users && r.nextId == s.nextId + 1;
    assert r.histories == s.histories + [LoanHistory(s.nextId, userId, bookName, status)];
    forall i, j | 0 <= i < j < |r.histories|
      ensures r.histories[i].id != r.histories[j].id
    {
      assert r.histories[i] == s.histories[i];
      if j < n {
        assert r.histories[j] == s.histories[j];
      }
    }
    forall i | 0 <= i < |r.histories|
      ensures exists j :: 0 <= j < |r.users| && r.users[j].id == r.histories[i].userId
    {
      if i < n {
        assert r.histories[i] == s.histories[i];
      } else {
        assert r.histories[i].userId == userId;
      }
    }
    assert forall i :: 0 <= i < |r.books| ==> r.books[i].id < r.nextId;
    assert forall i :: 0 <= i < |r.users| ==> r.users[i].id < r.nextId;
    assert forall i :: 0 <= i < |r.histories| ==> r.histories[i].id < r.nextId;
    assert forall i, j :: 0 <= i < j < |r.books| ==> r.books[i].id != r.books[j].id;
    assert forall i, j :: 0 <= i < j < |r.users| ==> r.users[i].id != r.users[j].id;
  }

  /**
   * On a valid ledger, the record a loan creates carries an identity no
   * earlier record has, and names a registered user.
   */
  lemma LoanBookRecordIsFresh(s: Store, userName: string, bookName: string)
    requires Valid(s)
    requires LoanBook(s, userName, bookName).Ok?
    ensures var h := LoanBook(s, userName, bookName).value.histories;
            && (forall j :: 0 <= j < |s.histories| ==> s.histories[j].id != h[|s.histories|].id)
            && exists j :: 0 <= j < |s.users| && s.users[j].id == h[|s.histories|].userId
  {
    var u := UserIndex(s.users, userName).value;
    assert s.users[u].id == LoanBook(s, userName, bookName).value.histories[|s.histories|].userId;
  }

  lemma LoanBookKeepsValid(s: Store, userName: string, bookName: string)
    requires Valid(s)
    ensures LoanBook(s, userName, bookName).Ok? ==> Valid(LoanBook(s, userName, bookName).value)
  {
    if LoanBook(s, userName, bookName).Ok? {
      var r := LoanBook(s, userName, bookName).value;
      var u := UserIndex(s.users, userName).value;
      forall i | 0 <= i < |r.histories|
        ensures exists j :: 0 <= j < |r.users| && r.users[j].id == r.histories[i].userId
      {
        if i == |s.histories| {
          assert r.users[u].id == r.histories[i].userId;
        } else {
          assert r.histories[i] == s.histories[i];
        }
      }
    }
  }

  lemma ReturnBookKeepsValid(s: Store, userName: string, bookName: string)
    requires Valid(s)
    ensures ReturnBook(s, userName, bookName).Ok? ==> Valid(ReturnBook(s, userName, bookName).value)
  {
    if ReturnBook(s, userName, bookName).Ok? {
      var r := ReturnBook(s, userName, bookName).value;
      forall i | 0 <= i < |r.histories|
        ensures r.histories[i].id == s.histories[i].id && r.histories[i].userId == s.histories[i].userId
      {
      }
    }
  }

  /** A loan that succeeds cannot create a second LOANED record for its book */
  lemma LoanBookKeepsAtMostOneLoaned(s: Store, userName: string, bookName: string)
    requires AtMostOneLoaned(s.histories)
    ensures LoanBook(s, userName, bookName).Ok? ==> AtMostOneLoaned(LoanBook(s, userName, bookName).value.histories)
  {
    if LoanBook(s, userName, bookName).Ok? {
      var hs := LoanBook(s, userName, bookName).value.histories;
      forall i, j | 0 <= i < j < |hs| && hs[i].status == Loaned && hs[j].status == Loaned
        ensures hs[i].bookName != hs[j].bookName
      {
        assert hs[i] == s.histories[i];
        if j < |s.histories| {
          assert hs[j] == s.histories[j];
        }
      }
    }
  }

  lemma ReturnBookKeepsAtMostOneLoaned(s: Store, userName: string, bookName: string)
    requires AtMostOneLoaned(s.histories)
    ensures ReturnBook(s, userName, bookName).Ok? ==> AtMostOneLoaned(ReturnBook(s, userName, bookName).value.histories)
  {
  }

  /** A request to the book service */
  datatype Request =
    | SaveBookRequest(name: string, bookType: BookType)
    | BookLoanRequest(userName: string, bookName: string)
    | BookReturnRequest(userName: string, bookName: string)

  /** The store after one request; a refused request leaves it as it was */
  function Apply(s: Store, req: Request): Store {
    match req
    case SaveBookRequest(name, bookType) => SaveBook(s, name, bookType)
    case BookLoanRequest(userName, bookName) =>
      (match LoanBook(s, userName, bookName) case Ok(s') => s' case Err(_) => s)
    case BookReturnRequest(userName, bookName) =>
      (match ReturnBook(s, userName, bookName) case Ok(s') => s' case Err(_) => s)
  }

  /** The store after a sequence of requests, served one at a time */
  function Run(s: Store, reqs: seq<Request>): Store
    decreases |reqs|
  {
    if reqs == [] then s else Run(Apply(s, reqs[0]), reqs[1..])
  }

  lemma ApplyKeepsInvariants(s: Store, req: Request)
    ensures Valid(s) ==> Valid(Apply(s, req))
    ensures AtMostOneLoaned(s.histories) ==> AtMostOneLoaned(Apply(s, req).histories)
  {
    match req
    case SaveBookRequest(name, bookType) =>
      if Valid(s) { SaveBookKeepsValid(s, name, bookType); }
    case BookLoanRequest(userName, bookName) =>
      if Valid(s) { LoanBookKeepsValid(s, userName, bookName); }
      if AtMostOneLoaned(s.histories) { LoanBookKeepsAtMostOneLoaned(s, userName, bookName); }
    case BookReturnRequest(userName, bookName) =>
      if Valid(s) { ReturnBookKeepsValid(s, userName, bookName); }
      if AtMostOneLoaned(s.histories) { ReturnBookKeepsAtMostOneLoaned(s, userName, bookName); }
  }

  /** Whatever requests the service serves, no book ends up with two LOANED records */
  lemma {:induction false} RunKeepsInvariants(s: Store, reqs: seq<Request>)
    ensures Valid(s) ==> Valid(Run(s, reqs))
    ensures AtMostOneLoaned(s.histories) ==> AtMostOneLoaned(Run(s, reqs).histories)
    decreases |reqs|
  {
    if reqs != [] {
      ApplyKeepsInvariants(s, reqs[0]);
      RunKeepsInvariants(Apply(s, reqs[0]), reqs[1..]);
    }
  }

  /** Starting from a ledger with nothing on loan, every book has at most one LOANED record */
  lemma RunFromNoLoans(s: Store, reqs: seq<Request>)
    requires forall i :: 0 <= i < |s.histories| ==> s.histories[i].status != Loaned
    ensures AtMostOneLoaned(Run(s, reqs).histories)
  {
    RunKeepsInvariants(s, reqs);
  }

  /** Returning a book reads only the users and the loan history, never the catalog */
  lemma ReturnBookIgnoresCatalog(s: Store, books: seq<Book>, userName: string, bookName: string)
    ensures ReturnBook(s.(books := books), userName, bookName) ==
            match ReturnBook(s, userName, bookName)
            case Ok(s') => Ok(s'.(books := books))
            case Err(e) => Err(e)
  {
  }

  /** Loaning a book reads only the users and the loan history, never the catalog */
  lemma LoanBookIgnoresCatalog(s: Store, books: seq<Book>, userName: string, bookName: string)
    ensures LoanBook(s.(books := books), userName, bookName) ==
            match LoanBook(s, userName, bookName)
            case Ok(s') => Ok(s'.(books := books))
            case Err(e) => Err(e)
  {
  }
}
