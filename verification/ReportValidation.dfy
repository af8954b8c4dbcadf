/** The checks a report must pass before it is written, and why a ledger's own reports pass them. */
module ReportValidation {
  import opened Integers
  import opened Outcomes
  import opened SortedMaps
  import opened Accounting
  import opened LedgerSums
  import Hierarchy
  import opened Ledger
  import opened TrialBalances
  import opened LedgerTheorems

  datatype ReportError =
    | DuplicateAccountId | InconsistentTrialBalanceRow | UnbalancedTrialBalance
    | DuplicatePostingId | DuplicateSourceRow | PostingAccountMismatch | NonCurrentPosting | ZeroPostingReported
    | NonDisplayablePostingAmount | PostingAfterAsOf | UnbalancedTransactionReported
    | TrialBalanceGeneralLedgerMismatch

  // ---------------------------------------------------------------------
  // Trial balance

  predicate RowConsistent(row: Row) {
    var signed: int := row.signedMinorUnits;
    if signed > 0 then row.debit == Some(row.signedMinorUnits) && row.credit.None?
    else if signed < 0 then row.debit.None? && row.credit.Some? && row.credit.value == -signed
    else row.debit.None? && row.credit.None?
  }

  ghost predicate DistinctRows(rows: seq<Row>) {
    forall i, j :: 0 <= i < j < |rows| ==> rows[i].account.id != rows[j].account.id
  }

  ghost predicate TrialBalanceAccepted(report: TrialBalance) {
    && DistinctRows(report.rows)
    && (forall i :: 0 <= i < |report.rows| ==> RowConsistent(report.rows[i]))
    && TotalDebit(report.rows) == TotalCredit(report.rows)
  }

  /** The first row that is not accepted, and the first reason there is. */
  ghost predicate RowRefused(rows: seq<Row>, i: nat, error: ReportError) {
    && i < |rows| && DistinctRows(rows[..i]) && (forall k :: 0 <= k < i ==> RowConsistent(rows[k]))
    && if exists k :: 0 <= k < i && rows[k].account.id == rows[i].account.id then error == DuplicateAccountId
       else !RowConsistent(rows[i]) && error == InconsistentTrialBalanceRow
  }

  method ValidateTrialBalance(report: TrialBalance) returns (r: Result<(), ReportError>)
    ensures r.Ok? <==> TrialBalanceAccepted(report)
    ensures r == Err(UnbalancedTrialBalance) <==>
      && DistinctRows(report.rows) && (forall i :: 0 <= i < |report.rows| ==> RowConsistent(report.rows[i]))
      && TotalDebit(report.rows) != TotalCredit(report.rows)
    ensures r.Err? && r.error != UnbalancedTrialBalance ==> exists i :: RowRefused(report.rows, i, r.error)
  {
    var ids: set<AccountId> := {};
    for i := 0 to |report.rows|
      invariant forall j, k :: 0 <= j < k < i ==> report.rows[j].account.id != report.rows[k].account.id
      invariant forall id :: id in ids <==> exists k :: 0 <= k < i && report.rows[k].account.id == id
      invariant forall k :: 0 <= k < i ==> RowConsistent(report.rows[k])
    {
      var row := report.rows[i];
      if row.account.id in ids {
        assert RowRefused(report.rows, i, DuplicateAccountId);
        return Err(DuplicateAccountId);
      }
      ids := ids + {row.account.id};
      if !RowConsistent(row) {
        assert RowRefused(report.rows, i, InconsistentTrialBalanceRow);
        return Err(InconsistentTrialBalanceRow);
      }
    }
    if TotalDebit(report.rows) != TotalCredit(report.rows) {
      return Err(UnbalancedTrialBalance);
    }
    return Ok(());
  }

  /**
    The accepted trial balances: no account twice, every row made from a balance that can be shown, and balances that
    net to zero.
   */
  lemma AcceptedTrialBalances(report: TrialBalance)
    ensures TrialBalanceAccepted(report) <==>
      && (forall i, j :: 0 <= i < j < |report.rows| ==> report.rows[i].account.id != report.rows[j].account.id)
      && (forall row :: row in report.rows ==> ProperRow(row))
      && NetOf(report.rows) == 0
  {
    forall row: Row
      ensures RowConsistent(row) <==> ProperRow(row)
    {
      ConsistentIsProper(row);
    }
    if forall row :: row in report.rows ==> ProperRow(row) {
      ColumnsNet(report.rows);
    }
  }

  lemma ConsistentIsProper(row: Row)
    ensures RowConsistent(row) <==> ProperRow(row)
  {
  }

  // ---------------------------------------------------------------------
  // General ledger

  predicate EntryAccepted(e: LedgerEntry, asOf: Date) {
    && e.posting.accountId == e.account.id
    && e.posting.state == Current
    && e.posting.signedMinorUnits != 0 && e.posting.signedMinorUnits != I64_MIN
    && e.posting.date <= asOf
  }

  ghost predicate GeneralLedgerAccepted(report: GeneralLedger) {
    && (forall i, j :: 0 <= i < j < |report.entries| ==>
          report.entries[i].posting.id != report.entries[j].posting.id
          && report.entries[i].posting.sourceRow != report.entries[j].posting.sourceRow)
    && (forall i :: 0 <= i < |report.entries| ==> EntryAccepted(report.entries[i], report.asOf))
    && EveryTransactionBalances(report.entries)
  }

  /** The first entry that is not accepted, and the first reason there is. */
  ghost predicate EntryRefused(report: GeneralLedger, i: nat, error: ReportError) {
    && i < |report.entries| && (forall k :: 0 <= k < i ==> EntryAccepted(report.entries[k], report.asOf))
    && error == EntryError(report, i)
  }

  ghost function EntryError(report: GeneralLedger, i: nat): ReportError
    requires i < |report.entries|
  {
    var e := report.entries[i];
    var p := e.posting;
    if exists k :: 0 <= k < i && report.entries[k].posting.id == p.id then DuplicatePostingId
    else if exists k :: 0 <= k < i && report.entries[k].posting.sourceRow == p.sourceRow then DuplicateSourceRow
    else if p.accountId != e.account.id then PostingAccountMismatch
    else if p.state != Current then NonCurrentPosting
    else if p.signedMinorUnits == 0 then ZeroPostingReported
    else if p.signedMinorUnits == I64_MIN then NonDisplayablePostingAmount
    else if p.date > report.asOf then PostingAfterAsOf
    else UnbalancedTransactionReported
  }

  method ValidateGeneralLedger(report: GeneralLedger) returns (r: Result<(), ReportError>)
    requires |report.entries| <= U64_MAX
    ensures r.Ok? <==> GeneralLedgerAccepted(report)
    ensures r == Err(UnbalancedTransactionReported) ==> !EveryTransactionBalances(report.entries)
    ensures r.Err? && r.error != UnbalancedTransactionReported ==> exists i :: EntryRefused(report, i, r.error)
  {
    var postingIds: set<PostingId> := {};
    var sourceRows: set<SourceRow> := {};
    var entries := report.entries;
    for i := 0 to |entries|
      invariant forall j, k :: 0 <= j < k < i ==>
        entries[j].posting.id != entries[k].posting.id && entries[j].posting.sourceRow != entries[k].posting.sourceRow
      invariant forall id :: id in postingIds <==> exists k :: 0 <= k < i && entries[k].posting.id == id
      invariant forall row :: row in sourceRows <==> exists k :: 0 <= k < i && entries[k].posting.sourceRow == row
      invariant forall k :: 0 <= k < i ==> EntryAccepted(entries[k], report.asOf)
    {
      var posting := entries[i].posting;
      if posting.id in postingIds {
        assert EntryRefused(report, i, DuplicatePostingId);
        return Err(DuplicatePostingId);
      }
      postingIds := postingIds + {posting.id};
      if posting.sourceRow in sourceRows {
        assert EntryRefused(report, i, DuplicateSourceRow);
        return Err(DuplicateSourceRow);
      }
      sourceRows := sourceRows + {posting.sourceRow};
      if posting.accountId != entries[i].account.id {
        assert EntryRefused(report, i, PostingAccountMismatch);
        return Err(PostingAccountMismatch);
      }
      if posting.state != Current {
        assert EntryRefused(report, i, NonCurrentPosting);
        return Err(NonCurrentPosting);
      }
      if posting.signedMinorUnits == 0 {
        assert EntryRefused(report, i, ZeroPostingReported);
        return Err(ZeroPostingReported);
      }
      if posting.signedMinorUnits == I64_MIN {
        assert EntryRefused(report, i, NonDisplayablePostingAmount);
        return Err(NonDisplayablePostingAmount);
      }
      if posting.date > report.asOf {
        assert EntryRefused(report, i, PostingAfterAsOf);
        return Err(PostingAfterAsOf);
      }
    }
    var balanced := AssertBalancedByTransaction(entries);
    if !balanced {
      return Err(UnbalancedTransactionReported);
    }
    return Ok(());
  }

  /** The accepted general ledgers. */
  lemma AcceptedGeneralLedgers(report: GeneralLedger)
    ensures GeneralLedgerAccepted(report) <==>
      && (forall i, j :: 0 <= i < j < |report.entries| ==>
            report.entries[i].posting.id != report.entries[j].posting.id
            && report.entries[i].posting.sourceRow != report.entries[j].posting.sourceRow)
      && (forall e :: e in report.entries ==>
            e.posting.accountId == e.account.id && e.posting.state == Current && e.posting.date <= report.asOf
            && e.posting.signedMinorUnits !in {0, I64_MIN})
      && (forall t :: Net(OfTransaction(report.entries, t)) == 0)
  {
    BalancesByTransaction(report.entries);
    assert (forall i :: 0 <= i < |report.entries| ==> EntryAccepted(report.entries[i], report.asOf)) <==>
      forall e :: e in report.entries ==> EntryAccepted(e, report.asOf);
  }

  // ---------------------------------------------------------------------
  // Both together

  /** The cross check groups entries by the account they carry. */
  function ByEntryAccount(): LedgerEntry -> int {
    (e: LedgerEntry) => e.account.id
  }

  /** The balance a trial balance states for an account: its last row, or zero. */
  function StatedBalance(rows: seq<Row>, id: AccountId): int {
    if rows == [] then 0
    else if rows[|rows| - 1].account.id == id then rows[|rows| - 1].signedMinorUnits
    else StatedBalance(rows[..|rows| - 1], id)
  }

  ghost predicate ReportsAgree(trialBalance: TrialBalance, generalLedger: GeneralLedger) {
    forall id :: StatedBalance(trialBalance.rows, id) == SumAt(generalLedger.entries, ByEntryAccount(), id)
  }

  method StatedBalances(rows: seq<Row>) returns (stated: map<int, int>)
    ensures forall id :: BalanceIn(stated, id) == StatedBalance(rows, id)
  {
    stated := map[];
    for i := 0 to |rows|
      invariant forall id :: BalanceIn(stated, id) == StatedBalance(rows[..i], id)
    {
      assert rows[..i + 1][..i] == rows[..i];
      stated := stated[rows[i].account.id := rows[i].signedMinorUnits];
    }
    assert rows[..|rows|] == rows;
  }

  method ValidateTrialBalanceMatchesGeneralLedger(trialBalance: TrialBalance, generalLedger: GeneralLedger)
    returns (r: Result<(), ReportError>)
    requires |generalLedger.entries| <= U64_MAX
    ensures r.Ok? <==> ReportsAgree(trialBalance, generalLedger)
  {
    var totals := TotalsBy(generalLedger.entries, ByEntryAccount());
    var stated := StatedBalances(trialBalance.rows);
    var ids := stated.Keys + totals.Keys;
    if id :| id in ids && BalanceIn(stated, id) != BalanceIn(totals, id) {
      assert StatedBalance(trialBalance.rows, id) != SumAt(generalLedger.entries, ByEntryAccount(), id);
      return Err(TrialBalanceGeneralLedgerMismatch);
    }
    forall id
      ensures StatedBalance(trialBalance.rows, id) == SumAt(generalLedger.entries, ByEntryAccount(), id)
    {
      assert BalanceIn(stated, id) == StatedBalance(trialBalance.rows, id);
      assert BalanceIn(totals, id) == SumAt(generalLedger.entries, ByEntryAccount(), id);
      assert id in ids || (id !in stated && id !in totals);
    }
    return Ok(());
  }

  // ---------------------------------------------------------------------
  // A ledger's own reports

  /** Every general ledger a ledger produces passes the check. */
  lemma OwnGeneralLedgerAccepted(books: Books, asOf: Date)
    requires books.Valid() && HasGeneralLedger(books, asOf)
    ensures GeneralLedgerAccepted(GeneralLedger(asOf, ReportEntries(books, asOf)))
  {
    var entries := ReportEntries(books, asOf);
    forall i | 0 <= i < |entries|
      ensures EntryAccepted(entries[i], asOf)
    {
      ReportMembers(books, asOf, entries[i]);
    }
    forall i, j | 0 <= i < j < |entries|
      ensures entries[i].posting.id != entries[j].posting.id
        && entries[i].posting.sourceRow != entries[j].posting.sourceRow
    {
      DistinctIndices(books, asOf, i, j);
      ReportMembers(books, asOf, entries[i]);
      ReportMembers(books, asOf, entries[j]);
      DistinctFields(books, entries[i].posting, entries[j].posting);
    }
  }

  lemma {:induction false} RowsSorted(accounts: Accounts, entries: seq<LedgerEntry>, home: LedgerEntry -> int,
      includeZero: bool)
    requires Accounting.WellKeyed(accounts) && AllDisplayable(accounts, entries, home)
    ensures DistinctRows(RowsOf(accounts, entries, home, includeZero))
  {
    if accounts != [] {
      RowsSorted(accounts[1..], entries, home, includeZero);
      var rest := RowsOf(accounts[1..], entries, home, includeZero);
      forall k | 0 <= k < |rest|
        ensures rest[k].account.id != accounts[0].key
      {
        RowsAreProper(accounts[1..], entries, home, includeZero, rest[k]);
        var i :| 0 <= i < |accounts[1..]|
          && rest[k] == RowOf(accounts[1..][i].value, SumAt(entries, home, accounts[1..][i].key));
        assert accounts[i + 1] == accounts[1..][i];
      }
    }
  }

  /** Every trial balance a ledger produces passes the check, in either form. */
  lemma OwnTrialBalanceAccepted(books: Books, asOf: Date, home: LedgerEntry -> int, includeZero: bool)
    requires books.Valid() && HasGeneralLedger(books, asOf)
    requires forall e :: e in ReportEntries(books, asOf) ==> HasKey(books.accounts, home(e))
    requires AllDisplayable(books.accounts, ReportEntries(books, asOf), home)
    ensures TrialBalanceAccepted(TrialBalance(asOf,
      RowsOf(books.accounts, ReportEntries(books, asOf), home, includeZero)))
  {
    var entries := ReportEntries(books, asOf);
    var rows := RowsOf(books.accounts, entries, home, includeZero);
    RowsSorted(books.accounts, entries, home, includeZero);
    forall i | 0 <= i < |rows|
      ensures RowConsistent(rows[i])
    {
      RowsAreProper(books.accounts, entries, home, includeZero, rows[i]);
    }
    BalancedTransactionsBalanceAccounts(books, asOf, home);
    TotalsAgree(books.accounts, entries, home, includeZero);
  }

  lemma {:induction false} StatedIsNoRow(rows: seq<Row>, id: AccountId)
    requires forall row :: row in rows ==> row.account.id != id
    ensures StatedBalance(rows, id) == 0
  {
    if rows != [] {
      assert rows[|rows| - 1] in rows;
      StatedIsNoRow(rows[..|rows| - 1], id);
    }
  }

  lemma {:induction false} StatedIsFront(row: Row, rest: seq<Row>, id: AccountId)
    requires forall r :: r in rest && r.account.id == id ==> row.account.id != id
    ensures StatedBalance([row] + rest, id)
      == if row.account.id == id then row.signedMinorUnits else StatedBalance(rest, id)
  {
    if rest == [] {
      assert [row] + rest == [row];
    } else {
      var last := rest[|rest| - 1];
      assert last in rest;
      assert ([row] + rest)[..|rest|] == [row] + rest[..|rest| - 1];
      StatedIsFront(row, rest[..|rest| - 1], id);
    }
  }

  /** The rows of a report state exactly the balance of every account of the chart. */
  lemma {:induction false} RowsState(accounts: Accounts, entries: seq<LedgerEntry>, home: LedgerEntry -> int,
      includeZero: bool, id: AccountId)
    requires Accounting.WellKeyed(accounts) && AllDisplayable(accounts, entries, home)
    ensures StatedBalance(RowsOf(accounts, entries, home, includeZero), id) ==
      if HasKey(accounts, id) then SumAt(entries, home, id) else 0
  {
    if accounts != [] {
      var first := accounts[0];
      var rest := RowsOf(accounts[1..], entries, home, includeZero);
      RowsState(accounts[1..], entries, home, includeZero, id);
      forall r | r in rest
        ensures r.account.id != first.key
      {
        RowsAreProper(accounts[1..], entries, home, includeZero, r);
        var i :| 0 <= i < |accounts[1..]|
          && r == RowOf(accounts[1..][i].value, SumAt(entries, home, accounts[1..][i].key));
        assert accounts[i + 1] == accounts[1..][i];
      }
      if first.key != id {
        KeyInTail(accounts, id);
      } else {
        StatedIsNoRow(rest, id);
      }
      StatedIsFront(RowOf(first.value, SumAt(entries, home, first.key)), rest, id);
      assert [] + rest == rest;
    }
  }

  lemma {:induction false} SameGrouping(entries: seq<LedgerEntry>, id: AccountId)
    requires forall e :: e in entries ==> e.account.id == e.posting.accountId
    ensures SumAt(entries, ByEntryAccount(), id) == SumAt(entries, ByAccount(), id)
  {
    if entries != [] {
      assert entries[|entries| - 1] in entries;
      SameGrouping(entries[..|entries| - 1], id);
    }
  }

  lemma {:induction false} NoEntriesNoSum(entries: seq<LedgerEntry>, home: LedgerEntry -> int, id: AccountId)
    requires forall e :: e in entries ==> home(e) != id
    ensures SumAt(entries, home, id) == 0
  {
    if entries != [] {
      assert entries[|entries| - 1] in entries;
      NoEntriesNoSum(entries[..|entries| - 1], home, id);
    }
  }

  /** What the general ledger adds up for an account is its plain balance, and zero outside the chart. */
  lemma LedgerStates(books: Books, asOf: Date, id: AccountId)
    requires books.Valid()
    ensures var entries := ReportEntries(books, asOf);
      && SumAt(entries, ByEntryAccount(), id) == SumAt(entries, ByAccount(), id)
      && (!HasKey(books.accounts, id) ==> SumAt(entries, ByAccount(), id) == 0)
  {
    var entries := ReportEntries(books, asOf);
    forall e | e in entries
      ensures e.account.id == e.posting.accountId && HasKey(books.accounts, ByAccount()(e))
    {
      ReportMembers(books, asOf, e);
    }
    SameGrouping(entries, id);
    if !HasKey(books.accounts, id) {
      NoEntriesNoSum(entries, ByAccount(), id);
    }
  }

  /** A plain trial balance and a general ledger of one ledger at one date always agree. */
  lemma OwnReportsAgree(books: Books, asOf: Date, includeZero: bool)
    requires books.Valid() && HasGeneralLedger(books, asOf)
    requires AllDisplayable(books.accounts, ReportEntries(books, asOf), ByAccount())
    ensures ReportsAgree(
      TrialBalance(asOf, RowsOf(books.accounts, ReportEntries(books, asOf), ByAccount(), includeZero)),
      GeneralLedger(asOf, ReportEntries(books, asOf)))
  {
    var entries := ReportEntries(books, asOf);
    forall id
      ensures StatedBalance(RowsOf(books.accounts, entries, ByAccount(), includeZero), id)
        == SumAt(entries, ByEntryAccount(), id)
    {
      RowsState(books.accounts, entries, ByAccount(), includeZero, id);
      LedgerStates(books, asOf, id);
    }
  }

  ghost function FiscalRows(books: Books, asOf: Date, includeZero: bool, policy: AccrualPolicy): seq<Row>
    requires books.Valid() && FiscalDisplayable(books, asOf, policy)
  {
    RowsOf(books.accounts, ReportEntries(books, asOf), ByFiscalHome(policy.fiscalYearStart, policy.retainedEarnings),
           includeZero)
  }

  ghost predicate FiscalDisplayable(books: Books, asOf: Date, policy: AccrualPolicy)
    requires books.Valid()
  {
    AllDisplayable(books.accounts, ReportEntries(books, asOf),
                   ByFiscalHome(policy.fiscalYearStart, policy.retainedEarnings))
  }

  /** How far the fiscal-year form is from the general ledger at one account. */
  lemma FiscalDifference(books: Books, asOf: Date, includeZero: bool, policy: AccrualPolicy, id: AccountId)
    requires books.Valid() && PolicyFits(books, asOf, policy) && FiscalDisplayable(books, asOf, policy)
    ensures var entries := ReportEntries(books, asOf);
      var earlier := EarlierPnl(entries, policy.fiscalYearStart);
      StatedBalance(FiscalRows(books, asOf, includeZero, policy), id) - SumAt(entries, ByEntryAccount(), id)
        == (if id == policy.retainedEarnings then Net(earlier) else 0) - SumAt(earlier, ByAccount(), id)
  {
    var entries := ReportEntries(books, asOf);
    RowsState(books.accounts, entries, ByFiscalHome(policy.fiscalYearStart, policy.retainedEarnings), includeZero, id);
    LedgerStates(books, asOf, id);
    if HasKey(books.accounts, id) {
      RollDifference(books, asOf, policy, id);
    } else {
      forall e | e in entries
        ensures e.posting.accountId != id
      {
        ReportMembers(books, asOf, e);
      }
      EarlierPnlOfOther(entries, policy.fiscalYearStart, id);
    }
  }

  /**
    A fiscal-year trial balance and a general ledger of one ledger at one date agree exactly if there is nothing to
    roll: for every profit-and-loss account, the postings before the fiscal year sum to zero.
   */
  lemma FiscalReportsAgreeExactly(books: Books, asOf: Date, includeZero: bool, policy: AccrualPolicy)
    requires books.Valid() && PolicyFits(books, asOf, policy) && FiscalDisplayable(books, asOf, policy)
    ensures ReportsAgree(TrialBalance(asOf, FiscalRows(books, asOf, includeZero, policy)),
                         GeneralLedger(asOf, ReportEntries(books, asOf)))
      <==> NothingToRoll(ReportEntries(books, asOf), policy.fiscalYearStart)
  {
    var rows, entries := FiscalRows(books, asOf, includeZero, policy), ReportEntries(books, asOf);
    var earlier := EarlierPnl(entries, policy.fiscalYearStart);
    forall id
      ensures StatedBalance(rows, id) - SumAt(entries, ByEntryAccount(), id)
        == (if id == policy.retainedEarnings then Net(earlier) else 0) - SumAt(earlier, ByAccount(), id)
    {
      FiscalDifference(books, asOf, includeZero, policy, id);
    }
    if NothingToRoll(entries, policy.fiscalYearStart) {
      GroupsNetToZero(earlier, ByAccount());
    }
    RetainedHasNoPnl(books, asOf, policy);
  }

  lemma RetainedHasNoPnl(books: Books, asOf: Date, policy: AccrualPolicy)
    requires books.Valid() && PolicyFits(books, asOf, policy)
    ensures SumAt(EarlierPnl(ReportEntries(books, asOf), policy.fiscalYearStart), ByAccount(),
      policy.retainedEarnings) == 0
  {
    ReportPnl(books, asOf, policy.retainedEarnings);
    EarlierPnlOfOther(ReportEntries(books, asOf), policy.fiscalYearStart, policy.retainedEarnings);
  }

  /** Income of an earlier year, booked against equity. */
  function SalesOfLastYear(sales: Account, retained: Account): Books {
    Books([Entry(1, sales), Entry(2, retained)],
          [Posting(1, 1, 1, 1, -100, Current, 1), Posting(1, 2, 2, 1, 100, Current, 2)],
          Complete)
  }

  lemma SalesBooks(sales: Account, retained: Account)
    requires sales.id == 1 && sales.parent.None? && retained.id == 2 && retained.parent.None?
    ensures var books := SalesOfLastYear(sales, retained);
      && books.Valid()
      && Lookup(books.accounts, 1) == Some(sales) && Lookup(books.accounts, 2) == Some(retained)
  {
    var books := SalesOfLastYear(sales, retained);
    var accounts := books.accounts;
    assert accounts[0].key == 1 && accounts[1].key == 2;
    LookupAt(accounts, 0);
    LookupAt(accounts, 1);
    Hierarchy.RootsAreClean(accounts);
  }

  lemma TwoSelected(accounts: Accounts, p: Posting, q: Posting, asOf: Date)
    requires HasKey(accounts, p.accountId) && HasKey(accounts, q.accountId)
    requires Reportable(p, asOf) && Reportable(q, asOf)
    ensures Selected(accounts, [p, q], asOf) ==
      [LedgerEntry(Lookup(accounts, p.accountId).value, p), LedgerEntry(Lookup(accounts, q.accountId).value, q)]
  {
    assert [p, q][..1] == [p] && [p][..0] == [];
    assert Selected(accounts, [p], asOf) == [LedgerEntry(Lookup(accounts, p.accountId).value, p)];
  }

  lemma TwoSorted(a: LedgerEntry, b: LedgerEntry)
    requires !Before(b, a)
    ensures SortedEntries([a, b]) == [a, b]
  {
    assert [a, b][..1] == [a] && [a][..0] == [] && [a][1..] == [];
    assert SortedEntries([a]) == [a];
    assert Inserted([a], b) == [a] + Inserted([], b);
  }

  lemma SalesEntries(sales: Account, retained: Account)
    requires sales.id == 1 && sales.parent.None? && retained.id == 2 && retained.parent.None?
    ensures var books := SalesOfLastYear(sales, retained);
      && books.Valid()
      && ReportEntries(books, 20) == [LedgerEntry(sales, books.postings[0]), LedgerEntry(retained, books.postings[1])]
  {
    var books := SalesOfLastYear(sales, retained);
    SalesBooks(sales, retained);
    TwoSelected(books.accounts, books.postings[0], books.postings[1], 20);
    TwoSorted(LedgerEntry(sales, books.postings[0]), LedgerEntry(retained, books.postings[1]));
  }

  /** Two reports of one ledger at one date that are rejected together: income of last year has been rolled forward. */
  lemma FiscalReportsMayDisagree(sales: Account, retained: Account, includeZero: bool)
    requires sales.id == 1 && sales.parent.None? && sales.accountType == Income
    requires retained.id == 2 && retained.parent.None? && retained.accountType == Equity
    ensures var books, policy := SalesOfLastYear(sales, retained), AccrualPolicy(10, 2);
      && books.Valid() && PolicyFits(books, 20, policy) && HasGeneralLedger(books, 20)
      && FiscalDisplayable(books, 20, policy)
      && !ReportsAgree(TrialBalance(20, FiscalRows(books, 20, includeZero, policy)),
                       GeneralLedger(20, ReportEntries(books, 20)))
  {
    var books, policy := SalesOfLastYear(sales, retained), AccrualPolicy(10, 2);
    SalesReported(sales, retained);
    SalesShown(sales, retained);
    FiscalReportsAgreeExactly(books, 20, includeZero, policy);
  }

  lemma SalesReported(sales: Account, retained: Account)
    requires sales.id == 1 && sales.parent.None? && sales.accountType == Income
    requires retained.id == 2 && retained.parent.None? && retained.accountType == Equity
    ensures var books, policy := SalesOfLastYear(sales, retained), AccrualPolicy(10, 2);
      && books.Valid() && PolicyFits(books, 20, policy) && HasGeneralLedger(books, 20)
      && !NothingToRoll(ReportEntries(books, 20), 10)
  {
    SalesBooks(sales, retained);
    SalesEntries(sales, retained);
    SalesSums(sales, retained);
  }

  lemma SalesShown(sales: Account, retained: Account)
    requires sales.id == 1 && sales.parent.None? && sales.accountType == Income
    requires retained.id == 2 && retained.parent.None? && retained.accountType == Equity
    requires SalesOfLastYear(sales, retained).Valid()
    ensures FiscalDisplayable(SalesOfLastYear(sales, retained), 20, AccrualPolicy(10, 2))
  {
    SalesEntries(sales, retained);
    SalesSums(sales, retained);
  }

  lemma SumOfTwo(a: LedgerEntry, b: LedgerEntry, home: LedgerEntry -> int, key: int)
    ensures SumAt([a, b], home, key) ==
      (if home(a) == key then a.posting.signedMinorUnits else 0)
      + (if home(b) == key then b.posting.signedMinorUnits else 0)
  {
    assert [a, b][..1] == [a] && [a][..0] == [];
    assert SumAt([a], home, key) == if home(a) == key then a.posting.signedMinorUnits else 0;
  }

  lemma FirstToRoll(a: LedgerEntry, b: LedgerEntry, start: Date)
    requires IsEarlierPnl(a, start) && !IsEarlierPnl(b, start) && a.posting.signedMinorUnits != 0
    ensures !NothingToRoll([a, b], start)
  {
    assert [a, b][..1] == [a] && [a][..0] == [];
    EarlierSum([a], start, a.posting.accountId);
    EarlierSum([a, b], start, a.posting.accountId);
  }

  lemma SalesSums(sales: Account, retained: Account)
    requires sales.accountType == Income && retained.accountType == Equity
    ensures var postings := SalesOfLastYear(sales, retained).postings;
      var entries := [LedgerEntry(sales, postings[0]), LedgerEntry(retained, postings[1])];
      && EveryTransactionBalances(entries) && !NothingToRoll(entries, 10)
      && SumAt(entries, ByFiscalHome(10, 2), 1) == SumAt(entries, ByFiscalHome(10, 2), 2) == 0
  {
    var postings := SalesOfLastYear(sales, retained).postings;
    var first, second := LedgerEntry(sales, postings[0]), LedgerEntry(retained, postings[1]);
    FirstToRoll(first, second, 10);
    SumOfTwo(first, second, ByFiscalHome(10, 2), 1);
    SumOfTwo(first, second, ByFiscalHome(10, 2), 2);
    forall t
      ensures SumAt([first, second], ByTransaction(), t) == 0
    {
      SumOfTwo(first, second, ByTransaction(), t);
    }
  }
}
