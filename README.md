# Library app: book service and calculator, modelled in Dafny

The library application registers books, loans them to users, takes them back,
and reports two statistics: how many books are on loan, and how many books
the catalog holds per book type. A small calculator class keeps one integer
and applies `add`, `minus`, `multifly` and `divide` to it.

In the repository, both components are pinned down by their tests,
`BookServiceTest.kt` and `CalculatorTest.kt`. This model follows those tests:

- **`Wrappers`** (`wrappers.dfy`): `Option` and `Result`.
- **`Ledger`** (`ledger.dfy`): the entities (`Book`, `User`, `LoanHistory`, `BookType`, `LoanStatus`).
  - The three stores and the identity counter are one value, `Store`.
  - `saveBook`, `loanBook` and `returnBook` are pure functions over it.
  - The repositories' direct saves of a user and of a loan record, which the tests use for setup, are the functions `RegisterUser` and `SaveHistory`.
  - The module also holds the consistency rule `AtMostOneLoaned`: no two LOANED records name one book.
  - It holds the well-formedness predicate `Valid`: fresh, unique identities, and every record belongs to a user.
    `Valid` is an invariant that every operation keeps. Its one consequence stated for callers is `LoanBookRecordIsFresh`: a loan's new record has an unused id and a registered user.
  - It proves that any sequence of service requests keeps both.
- **`Statistics`** (`statistics.dfy`): `countLoanedBook` is `CountLoaned`. It is proved equal to the number of LOANED positions.
  - Under the consistency rule, it also equals the number of distinct book names on loan.
  - A successful loan adds exactly one to it, and a successful return takes exactly one off.
  - `getBookStatistics` is `Statistics`, a group-by-type count. It has exactly one entry per type present, holding that type's number of books. Absent types have no entry.
- **`Service`** (`book_service.dfy`): the class `BookService`. Its `seq` fields are the catalog, the users and the loan history.
  - `SaveBook` and `LoanBook` append to the stores.
  - `ReturnBook` flips one record's status in place.
  - `SaveBook`, `LoanBook` and `ReturnBook` are each proved to produce exactly the state their `Ledger` function gives, and to keep the invariants.
  - `RegisterUser` and `SaveHistory` stand in for the repositories' direct saves in the tests' setup. Their `ensures` spell out, field by field, the same update as those functions. `RegisterUserKeepsValid` and `SaveHistoryKeepsValid` prove that they keep the identity invariant. `SaveHistory` does not apply the loan rule.
  - The two report methods return values whose meaning is stated directly.
  - One client method per test replays that test's scenario against the class and proves the test's assertions.
- **`Calculator`** (`calculator.dfy`): the class `Calculator` with its field `number`, and `TruncatedQuotient`.
  - `TruncatedQuotient` is Kotlin's integer `/`, which rounds toward zero. It is characterised by its remainder and proved unique.
  - Each test is replayed as a client method.

Decisions on behaviour the tests leave open:

- `loanBook` checks, in this order:
  1. The user exists. The first registered user with that name is taken.
  2. No record, of any user, has that book LOANED. Otherwise the error is `AlreadyLoaned`, with the message "이미 대출되어 있는 책입니다.".

  By the model's decision, it does not look the book up in the catalog: the documented loan steps are the two above, and a loan record names its book only. So a name absent from the catalog is loaned like any other. No test observes this case, since both loan tests register the book first. Any refusal changes nothing.
- `returnBook` finds the user by name, then flips the FIRST record of that user for that book name whose status is LOANED. It fails with `LoanNotFound` when there is none. It never reads the catalog.
- Identities for books, users and records come from one counter shared by the three stores.
- `getBookStatistics` lists types in order of first appearance in the catalog. No property depends on that order.

## Model

| member | source | states |
|---|---|---|
| `Ledger.UserIndex` | src/test/kotlin/com/group/libraryapp/service/book/BookServiceTest.kt:60-61 | The user a request names is the first registered user with that name; there is none exactly when no user has the name. |
| `Ledger.ActiveLoanIndex` | src/test/kotlin/com/group/libraryapp/service/book/BookServiceTest.kt:94-99 | The record a return flips is the first one of that user for that book whose status is LOANED; there is none exactly when no such record exists. |
| `Ledger.SaveBook` | src/test/kotlin/com/group/libraryapp/service/book/BookServiceTest.kt:41-53 | Registering a book adds exactly one book, with the request's name and type. Earlier books, users and loan records stay as they were. |
| `Ledger.SaveBookOnEmptyCatalog` | src/test/kotlin/com/group/libraryapp/service/book/BookServiceTest.kt:41-53 | On an empty catalog, registering leaves exactly one book, whose name and type are the request's. |
| `Ledger.RegisterUser` | src/test/kotlin/com/group/libraryapp/service/book/BookServiceTest.kt:60 | Saving a user appends exactly one user with the given name and age. The catalog and the loan records are unchanged. |
| `Ledger.SaveHistory` | src/test/kotlin/com/group/libraryapp/service/book/BookServiceTest.kt:80 | Saving a loan record directly appends exactly one record with the given user id, book name and status, without the loan rule. The catalog and the users are unchanged. |
| `Ledger.LoanBook` | src/test/kotlin/com/group/libraryapp/service/book/BookServiceTest.kt:56-88 | The loan succeeds exactly when the user exists and no LOANED record names the book. It fails with UserNotFound exactly when no user has the name, and with AlreadyLoaned exactly when the user exists and a LOANED record names the book; no other error arises. On success it appends one record: the book's name, the id of the user found by name, status LOANED. |
| `Ledger.ReturnBook` | src/test/kotlin/com/group/libraryapp/service/book/BookServiceTest.kt:91-105 | The return succeeds exactly when the named user has a LOANED record for the book. That record becomes RETURNED. The number of records and every other record are unchanged. |
| `Ledger.LoanBookIgnoresCatalog` | src/test/kotlin/com/group/libraryapp/service/book/BookServiceTest.kt:94-95 | The outcome of a loan does not depend on the catalog; only the users and the loan records decide it. This is the model's decision, not something a test observes: both loan tests register the book first. It follows the loan's documented steps (look up the user, then check for a LOANED record) and the fact that a record names its book by name only, which these lines use when they save a record with no book in the catalog. |
| `Ledger.ReturnBookIgnoresCatalog` | src/test/kotlin/com/group/libraryapp/service/book/BookServiceTest.kt:94-99 | The outcome of a return does not depend on the catalog, so a return succeeds with no book registered. |
| `Ledger.SaveBookKeepsValid` | src/test/kotlin/com/group/libraryapp/service/book/BookServiceTest.kt:43-46 | Registering a book keeps identities fresh and unique and keeps every record tied to a user. |
| `Ledger.RegisterUserKeepsValid` | src/test/kotlin/com/group/libraryapp/service/book/BookServiceTest.kt:60 | Saving a user keeps identities fresh and unique and keeps every record tied to a user. |
| `Ledger.SaveHistoryKeepsValid` | src/test/kotlin/com/group/libraryapp/service/book/BookServiceTest.kt:80 | Saving a record for a registered user keeps identities fresh and unique and keeps every record tied to a user. |
| `Ledger.LoanBookKeepsValid` | src/test/kotlin/com/group/libraryapp/service/book/BookServiceTest.kt:60-70 | A loan's new record has a fresh id and the id of a registered user. |
| `Ledger.ReturnBookKeepsValid` | src/test/kotlin/com/group/libraryapp/service/book/BookServiceTest.kt:94-99 | A return keeps every id and user reference. |
| `Ledger.LoanBookRecordIsFresh` | src/test/kotlin/com/group/libraryapp/service/book/BookServiceTest.kt:64-70 | On a valid ledger, the record a loan creates has an id no earlier record has, and it names a registered user. |
| `Ledger.LoanBookKeepsAtMostOneLoaned` | src/test/kotlin/com/group/libraryapp/service/book/BookServiceTest.kt:75-88 | Because an already-loaned book is refused, a successful loan never creates a second LOANED record for a book. |
| `Ledger.ReturnBookKeepsAtMostOneLoaned` | src/test/kotlin/com/group/libraryapp/service/book/BookServiceTest.kt:91-105 | A return only turns LOANED into RETURNED, so it keeps at most one LOANED record per book. |
| `Ledger.ApplyKeepsInvariants` | src/test/kotlin/com/group/libraryapp/service/book/BookServiceTest.kt:75-88 | Any one request, served or refused, keeps both the identity invariant and at most one LOANED record per book. |
| `Ledger.RunKeepsInvariants` | src/test/kotlin/com/group/libraryapp/service/book/BookServiceTest.kt:75-88 | Any sequence of save, loan and return requests keeps both invariants. |
| `Ledger.RunFromNoLoans` | src/test/kotlin/com/group/libraryapp/service/book/BookServiceTest.kt:75-88 | Starting with nothing on loan, any sequence of requests leaves at most one LOANED record per book name. |
| `Statistics.CountLoaned` | src/test/kotlin/com/group/libraryapp/service/book/BookServiceTest.kt:108-123 | The count of loaned books never exceeds the number of records. |
| `Statistics.CountLoanedIsCardinality` | src/test/kotlin/com/group/libraryapp/service/book/BookServiceTest.kt:108-123 | The count equals the number of records whose status is LOANED. RETURNED records are not counted. |
| `Statistics.CountLoanedExample` | src/test/kotlin/com/group/libraryapp/service/book/BookServiceTest.kt:112-122 | One LOANED record and two RETURNED records count as 1. |
| `Statistics.LoanBookCounts` | src/test/kotlin/com/group/libraryapp/service/book/BookServiceTest.kt:56-72 | A successful loan raises the count of loaned books by exactly one. |
| `Statistics.ReturnBookCounts` | src/test/kotlin/com/group/libraryapp/service/book/BookServiceTest.kt:91-105 | A successful return lowers the count of loaned books by exactly one. |
| `Statistics.IsOnLoanIsNamed` | src/test/kotlin/com/group/libraryapp/service/book/BookServiceTest.kt:75-88 | A book counts as on loan for the loan rule exactly when its name is among the names of LOANED records. |
| `Statistics.CountLoanedIsBooksOnLoan` | src/test/kotlin/com/group/libraryapp/service/book/BookServiceTest.kt:108-123 | When at most one record per book is LOANED, the count equals the number of distinct book names on loan. |
| `Statistics.CountOfType` | src/test/kotlin/com/group/libraryapp/service/book/BookServiceTest.kt:126-141 | The number of books of one type never exceeds the catalog's size. |
| `Statistics.CountFor` | src/test/kotlin/com/group/libraryapp/service/book/BookServiceTest.kt:151-153 | Looking a type up in a report (first entry of that type) finds nothing exactly when no entry has that type. |
| `Statistics.Bump` | src/test/kotlin/com/group/libraryapp/service/book/BookServiceTest.kt:126-141 | Counting one more book of a type adds one to that type's entry, or creates it with 1. Other types' entries are unchanged, no foreign type appears, and distinct types stay distinct. |
| `Statistics.Statistics` | src/test/kotlin/com/group/libraryapp/service/book/BookServiceTest.kt:126-141 | The report has distinct types. A type with books maps to its number of books, and a type without books is absent. |
| `Statistics.StatisticsExample` | src/test/kotlin/com/group/libraryapp/service/book/BookServiceTest.kt:129-141 | A catalog of COMPUTER, COMPUTER, ECONOMY gives a report of size 2, with COMPUTER at 2 and ECONOMY at 1. |
| `Statistics.SummarizedEntries` | src/test/kotlin/com/group/libraryapp/service/book/BookServiceTest.kt:139-141 | Every entry of a report holds the positive number of catalog books of its type. |
| `Statistics.CountOfTypePositive` | src/test/kotlin/com/group/libraryapp/service/book/BookServiceTest.kt:126-141 | A type has a positive count exactly when some catalog book has that type. |
| `Statistics.SummarizedSize` | src/test/kotlin/com/group/libraryapp/service/book/BookServiceTest.kt:139 | A report has exactly as many entries as there are types in the catalog. |
| `Service.BookService.constructor` | src/test/kotlin/com/group/libraryapp/service/book/BookServiceTest.kt:23-29 | A new service starts with empty stores and satisfies the identity invariant. |
| `Service.BookService.RegisterUser` | src/test/kotlin/com/group/libraryapp/service/book/BookServiceTest.kt:60 | Saving a user appends it under a fresh id and keeps the identity invariant. Nothing else changes. |
| `Service.BookService.SaveHistory` | src/test/kotlin/com/group/libraryapp/service/book/BookServiceTest.kt:80 | Saving a loan record for a registered user appends it under a fresh id and keeps the identity invariant, without the loan rule. |
| `Service.BookService.SaveBook` | src/test/kotlin/com/group/libraryapp/service/book/BookServiceTest.kt:46 | The new state is exactly what `Ledger.SaveBook` gives, and the invariant holds. |
| `Service.BookService.LoanBook` | src/test/kotlin/com/group/libraryapp/service/book/BookServiceTest.kt:64 | The returned error and the new state are exactly `Ledger.LoanBook`'s. A refused loan changes nothing, and at most one LOANED record per book is kept. |
| `Service.BookService.ReturnBook` | src/test/kotlin/com/group/libraryapp/service/book/BookServiceTest.kt:99 | The returned error and the new state are exactly `Ledger.ReturnBook`'s. A refused return changes nothing, and at most one LOANED record per book is kept. |
| `Service.BookService.CountLoanedBook` | src/test/kotlin/com/group/libraryapp/service/book/BookServiceTest.kt:119 | Returns the number of records currently LOANED. |
| `Service.BookService.GetBookStatistics` | src/test/kotlin/com/group/libraryapp/service/book/BookServiceTest.kt:136 | Returns a per-type report of the catalog, with one entry per type present. |
| `Service.SaveBookScenario` | src/test/kotlin/com/group/libraryapp/service/book/BookServiceTest.kt:41-53 | After "긴긴밤" is saved as COMPUTER, the catalog holds one book with that name and type. |
| `Service.LoanBookScenario` | src/test/kotlin/com/group/libraryapp/service/book/BookServiceTest.kt:56-72 | One record results, for "긴긴밤", with the saved user's id and status LOANED. |
| `Service.LoanBookFailScenario` | src/test/kotlin/com/group/libraryapp/service/book/BookServiceTest.kt:75-88 | With a LOANED record present, the loan fails with AlreadyLoaned and the message "이미 대출되어 있는 책입니다.", and no record is added. |
| `Service.ReturnBookScenario` | src/test/kotlin/com/group/libraryapp/service/book/BookServiceTest.kt:91-105 | With no book in the catalog, the return leaves one record, RETURNED. |
| `Service.CountLoanedBookScenario` | src/test/kotlin/com/group/libraryapp/service/book/BookServiceTest.kt:108-123 | The records LOANED, RETURNED, RETURNED count as 1. |
| `Service.GetBookStatisticsScenario` | src/test/kotlin/com/group/libraryapp/service/book/BookServiceTest.kt:126-153 | The catalog COMPUTER, COMPUTER, ECONOMY gives two entries: COMPUTER 2 and ECONOMY 1. |
| `Calculator.TruncatedQuotient` | src/test/kotlin/com/group/libraryapp/calculator/CalculatorTest.kt:55-66 | The quotient rounds toward zero. The remainder is smaller than the divisor in magnitude and never has the dividend's opposite sign. |
| `Calculator.TruncatedQuotientUnique` | src/test/kotlin/com/group/libraryapp/calculator/CalculatorTest.kt:55-66 | The truncated quotient is the only quotient with such a remainder. |
| `Calculator.TruncatedQuotientOnNonNegative` | src/test/kotlin/com/group/libraryapp/calculator/CalculatorTest.kt:55-66 | On non-negative operands it agrees with floor division; -5 divided by 2 gives -2, not -3. |
| `Calculator.Calculator.constructor` | src/test/kotlin/com/group/libraryapp/calculator/CalculatorTest.kt:18 | `Calculator(n)` stores n in `number`. |
| `Calculator.Calculator.Add` | src/test/kotlin/com/group/libraryapp/calculator/CalculatorTest.kt:16-27 | `number` becomes the old `number` plus the operand. |
| `Calculator.Calculator.Minus` | src/test/kotlin/com/group/libraryapp/calculator/CalculatorTest.kt:29-40 | `number` becomes the old `number` minus the operand. |
| `Calculator.Calculator.Multifly` | src/test/kotlin/com/group/libraryapp/calculator/CalculatorTest.kt:42-53 | `number` becomes the old `number` times the operand. |
| `Calculator.Calculator.Divide` | src/test/kotlin/com/group/libraryapp/calculator/CalculatorTest.kt:55-85 | For a nonzero operand, `number` becomes the truncated quotient. For zero, the call raises IllegalArgument("0으로 나눌 수 없습니다.") and `number` is unchanged. |
| `Calculator.AddScenario` | src/test/kotlin/com/group/libraryapp/calculator/CalculatorTest.kt:16-27 | 5 add 3 gives 8. |
| `Calculator.MinusScenario` | src/test/kotlin/com/group/libraryapp/calculator/CalculatorTest.kt:29-40 | 5 minus 3 gives 2. |
| `Calculator.MultiflyScenario` | src/test/kotlin/com/group/libraryapp/calculator/CalculatorTest.kt:42-53 | 5 multifly 3 gives 15. |
| `Calculator.DivideScenario` | src/test/kotlin/com/group/libraryapp/calculator/CalculatorTest.kt:55-66 | 5 divide 2 gives 2. |
| `Calculator.DivideByZeroScenario` | src/test/kotlin/com/group/libraryapp/calculator/CalculatorTest.kt:68-85 | Dividing by zero yields exactly IllegalArgument("0으로 나눌 수 없습니다.") and no other kind of error. |

## Left out

- Framework persistence and dependency injection are not modelled. The repositories' `save`, `saveAll`, `findAll` and `deleteAll` become in-memory sequences with one identity counter; the real stores draw identities per table.
- The per-test cleanup that deletes all books and users is not modelled. It is test plumbing, and it relies on the ORM's cascade delete.
- Transactions and concurrent callers are left out. The model is sequential, so each check-then-insert in a loan is atomic by construction.
- `UserCreateRequest.java` is a plain data holder with no behaviour. `divideTest.kt` repeats the divide test. The `main` test runner is harness code.
- `Book.fixture`'s default book type is not part of this model. The loan scenarios register their book as COMPUTER.
- Only the book types COMPUTER and ECONOMY are modelled, the two the tests use. No property depends on how many types there are.
- No message is modelled for the errors the tests never trigger (`UserNotFound`, `LoanNotFound`): `LoanError.Message` gives none for them.
- A non-empty check on book names is not modelled. The tests never save a book with an empty name, and the model accepts any name.
- The order of `getBookStatistics` entries is not fixed by the tests. The model uses order of first appearance, and no lemma relies on it.
- Calculator.Calculator.Add: adds unbounded integers, so Kotlin's 32-bit `Int` wrap-around is not modelled.
- Calculator.Calculator.Minus: subtracts unbounded integers, so Kotlin's 32-bit `Int` wrap-around is not modelled.
- Calculator.Calculator.Multifly: multiplies unbounded integers, so Kotlin's 32-bit `Int` wrap-around is not modelled.
- Calculator.Calculator.Divide: the overflow of `Int.MIN_VALUE / -1` is not modelled. Negative operands are covered by the truncating quotient.
