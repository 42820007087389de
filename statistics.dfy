/**
 * The book service's two read-only reports: how many loan records are
 * LOANED, and how many catalog books there are of each book type.
 */
module Statistics {
  import opened Wrappers
  import opened Ledger

  /** Number of records whose status is LOANED */
  function CountLoaned(histories: seq<LoanHistory>): (n: nat)
    ensures n <= |histories|
  {
    if histories == [] then 0
    else
      var last := histories[|histories| - 1];
      CountLoaned(histories[..|histories| - 1]) + (if last.status == Loaned then 1 else 0)
  }

  /** Positions of the LOANED records: the reference definition the count is checked against */
  ghost function LoanedPositions(histories: seq<LoanHistory>): set<nat> {
    set i: nat | i < |histories| && histories[i].status == Loaned
  }

  lemma {:induction false} CountLoanedIsCardinality(histories: seq<LoanHistory>)
    ensures CountLoaned(histories) == |LoanedPositions(histories)|
  {
    if histories != [] {
      var n := |histories| - 1;
      var prefix := histories[..n];
      CountLoanedIsCardinality(prefix);
      assert forall i :: 0 <= i < n ==> prefix[i] == histories[i];
      if histories[n].status == Loaned {
        assert LoanedPositions(histories) == LoanedPositions(prefix) + {n};
      } else {
        assert LoanedPositions(histories) == LoanedPositions(prefix);
      }
    }
  }

  /** A successful loan adds exactly one to the count of loaned books */
  lemma LoanBookCounts(s: Store, userName: string, bookName: string)
    requires LoanBook(s, userName, bookName).Ok?
    ensures CountLoaned(LoanBook(s, userName, bookName).value.histories) == CountLoaned(s.histories) + 1
  {
    var hs := LoanBook(s, userName, bookName).value.histories;
    assert hs[..|hs| - 1] == s.histories;
  }

  /** A successful return takes exactly one off the count of loaned books */
  lemma ReturnBookCounts(s: Store, userName: string, bookName: string)
    requires ReturnBook(s, userName, bookName).Ok?
    ensures CountLoaned(ReturnBook(s, userName, bookName).value.histories) == CountLoaned(s.histories) - 1
  {
    var hs := ReturnBook(s, userName, bookName).value.histories;
    var k := ActiveLoanIndex(s.histories, s.users[UserIndex(s.users, userName).value].id, bookName).value;
    assert LoanedPositions(hs) == LoanedPositions(s.histories) - {k};
    CountLoanedIsCardinality(hs);
    CountLoanedIsCardinality(s.histories);
  }

  /** One LOANED record among two RETURNED ones counts as one loaned book */
  lemma CountLoanedExample(a: LoanHistory, b: LoanHistory, c: LoanHistory)
    requires a.status == Loaned && b.status == Returned && c.status == Returned
    ensures CountLoaned([a, b, c]) == 1
  {
    assert [a][..0] == [];
    assert CountLoaned([a]) == 1;
    assert [a, b][..1] == [a];
    assert CountLoaned([a, b]) == 1;
    assert [a, b, c][..2] == [a, b];
  }

  /** Names of the books some LOANED record refers to */
  ghost function NamesOnLoan(histories: seq<LoanHistory>): set<string> {
    set i | 0 <= i < |histories| && histories[i].status == Loaned :: histories[i].bookName
  }

  /** A book is on loan exactly when its name is among the names on loan */
  lemma IsOnLoanIsNamed(histories: seq<LoanHistory>, bookName: string)
    ensures IsOnLoan(histories, bookName) <==> bookName in NamesOnLoan(histories)
  {
    if IsOnLoan(histories, bookName) {
      var i :| 0 <= i < |histories| && histories[i].bookName == bookName && histories[i].status == Loaned;
      assert histories[i].bookName in NamesOnLoan(histories);
    }
  }

  lemma NamesOnLoanSnoc(histories: seq<LoanHistory>)
    requires histories != []
    ensures var n := |histories| - 1;
            NamesOnLoan(histories) ==
              NamesOnLoan(histories[..n]) + (if histories[n].status == Loaned then {histories[n].bookName} else {})
  {
    var n := |histories| - 1;
    var prefix := histories[..n];
    assert forall i :: 0 <= i < n ==> prefix[i] == histories[i];
  }

  /** Under the ledger's rule, the count is the number of distinct book names on loan */
  lemma {:induction false} CountLoanedIsBooksOnLoan(histories: seq<LoanHistory>)
    requires AtMostOneLoaned(histories)
    ensures CountLoaned(histories) == |NamesOnLoan(histories)|
  {
    if histories != [] {
      var n := |histories| - 1;
      var prefix := histories[..n];
      assert AtMostOneLoaned(prefix) by {
        assert forall i :: 0 <= i < n ==> prefix[i] == histories[i];
      }
      CountLoanedIsBooksOnLoan(prefix);
      NamesOnLoanSnoc(histories);
    }
  }

  /** One entry of the per-type report */
  datatype BookStat = BookStat(bookType: BookType, count: nat)

  /** Number of catalog books of type `t` */
  function CountOfType(books: seq<Book>, t: BookType): (n: nat)
    ensures n <= |books|
  {
    if books == [] then 0
    else
      var last := books[|books| - 1];
      CountOfType(books[..|books| - 1], t) + (if last.bookType == t then 1 else 0)
  }

  /** The count of the first entry for type `t`, as a reader of the report looks it up */
  function CountFor(stats: seq<BookStat>, t: BookType): (r: Option<nat>)
    ensures r.None? <==> forall i :: 0 <= i < |stats| ==> stats[i].bookType != t
  {
    if stats == [] then None
    else if stats[0].bookType == t then Some(stats[0].count)
    else CountFor(stats[1..], t)
  }

  ghost predicate DistinctTypes(stats: seq<BookStat>) {
    forall i, j :: 0 <= i < j < |stats| ==> stats[i].bookType != stats[j].bookType
  }

  /**
   * `stats` is a per-type report of `books`: one entry per type, the types
   * with books present with their number of books, the others absent.
   */
  ghost predicate Summarizes(stats: seq<BookStat>, books: seq<Book>) {
    && DistinctTypes(stats)
    && forall t :: CountFor(stats, t) == if CountOfType(books, t) == 0 then None else Some(CountOfType(books, t))
  }

  /** Counts one more book of type `t` */
  function Bump(stats: seq<BookStat>, t: BookType): (r: seq<BookStat>)
    ensures CountFor(r, t) == Some(match CountFor(stats, t) case None => 1 case Some(c) => c + 1)
    ensures forall t' :: t' != t ==> CountFor(r, t') == CountFor(stats, t')
    ensures forall i :: 0 <= i < |r| ==> r[i].bookType == t || exists j :: 0 <= j < |stats| && stats[j].bookType == r[i].bookType
    ensures DistinctTypes(stats) ==> DistinctTypes(r)
  {
    if stats == [] then [BookStat(t, 1)]
    else if stats[0].bookType == t then [stats[0].(count := stats[0].count + 1)] + stats[1..]
    else [stats[0]] + Bump(stats[1..], t)
  }

  /** The per-type report over the catalog, grouping books by type in order of first appearance */
  function Statistics(books: seq<Book>): (r: seq<BookStat>)
    ensures Summarizes(r, books)
  {
    if books == [] then []
    else
      var prefix := books[..|books| - 1];
      Bump(Statistics(prefix), books[|books| - 1].bookType)
  }

  /** Two COMPUTER books and one ECONOMY book give two entries, 2 for COMPUTER and 1 for ECONOMY */
  lemma StatisticsExample(books: seq<Book>)
    requires |books| == 3
    requires books[0].bookType == Computer && books[1].bookType == Computer && books[2].bookType == Economy
    ensures CountOfType(books, Computer) == 2 && CountOfType(books, Economy) == 1 && |TypesOf(books)| == 2
    ensures var stats := Statistics(books);
            |stats| == 2 && CountFor(stats, Computer) == Some(2) && CountFor(stats, Economy) == Some(1)
  {
    assert books[..2][..1] == books[..1] && books[..1][..0] == [];
    assert CountOfType(books[..1], Computer) == 1 && CountOfType(books[..1], Economy) == 0;
    assert CountOfType(books[..2], Computer) == 2 && CountOfType(books[..2], Economy) == 0;
    assert TypesOf(books) == {Computer, Economy} by {
      assert books[0].bookType in TypesOf(books) && books[2].bookType in TypesOf(books);
    }
    SummarizedSize(Statistics(books), books);
  }

  /** Every entry of a report holds the positive number of books of its type */
  lemma SummarizedEntries(stats: seq<BookStat>, books: seq<Book>)
    requires Summarizes(stats, books)
    ensures forall i :: 0 <= i < |stats| ==> 0 < stats[i].count == CountOfType(books, stats[i].bookType)
  {
    forall i | 0 <= i < |stats|
      ensures 0 < stats[i].count == CountOfType(books, stats[i].bookType)
    {
      DistinctCountFor(stats, i);
    }
  }

  lemma {:induction false} DistinctCountFor(stats: seq<BookStat>, i: nat)
    requires DistinctTypes(stats) && i < |stats|
    ensures CountFor(stats, stats[i].bookType) == Some(stats[i].count)
  {
    if i > 0 {
      DistinctCountFor(stats[1..], i - 1);
    }
  }

  /** The types present in the catalog */
  ghost function TypesOf(books: seq<Book>): set<BookType> {
    set i | 0 <= i < |books| :: books[i].bookType
  }

  lemma {:induction false} CountOfTypePositive(books: seq<Book>, t: BookType)
    ensures CountOfType(books, t) > 0 <==> t in TypesOf(books)
  {
    if books != [] {
      var n := |books| - 1;
      var prefix := books[..n];
      CountOfTypePositive(prefix, t);
      assert forall i :: 0 <= i < n ==> prefix[i] == books[i];
      assert TypesOf(books) == TypesOf(prefix) + {books[n].bookType};
    }
  }

  lemma {:induction false} DistinctCardinality(stats: seq<BookStat>)
    requires DistinctTypes(stats)
    ensures |set i | 0 <= i < |stats| :: stats[i].bookType| == |stats|
  {
    if stats != [] {
      var tail := stats[1..];
      DistinctCardinality(tail);
      var all := set i | 0 <= i < |stats| :: stats[i].bookType;
      var rest := set i | 0 <= i < |tail| :: tail[i].bookType;
      assert all == rest + {stats[0].bookType} by {
        forall t | t in all ensures t in rest + {stats[0].bookType} {
          var i :| 0 <= i < |stats| && stats[i].bookType == t;
          if i > 0 { assert tail[i - 1] == stats[i]; }
        }
      }
      assert stats[0].bookType !in rest;
    }
  }

  /** A report has exactly as many entries as there are types in the catalog */
  lemma SummarizedSize(stats: seq<BookStat>, books: seq<Book>)
    requires Summarizes(stats, books)
    ensures |stats| == |TypesOf(books)|
  {
    var present := set i | 0 <= i < |stats| :: stats[i].bookType;
    forall t ensures t in present <==> t in TypesOf(books) {
      CountOfTypePositive(books, t);
      if t in present {
        var i :| 0 <= i < |stats| && stats[i].bookType == t;
        assert CountFor(stats, t).Some?;
      }
    }
    assert present == TypesOf(books);
    DistinctCardinality(stats);
  }
}
