/** Trial balances, plain and by fiscal year, and what can and cannot go wrong with them. */
module TrialBalances {
  import opened Integers
  import opened Outcomes
  import opened SortedMaps
  import opened Accounting
  import opened HierarchyNames
  import opened LedgerSums
  import opened Ledger

  datatype Row = Row(account: Account, signedMinorUnits: i64, debit: Option<i64>, credit: Option<i64>)

  datatype TrialBalance = TrialBalance(asOf: Date, rows: seq<Row>)

  /** A balance whose debit or credit column can be shown. */
  predicate Displayable(signed: int) {
    I64_MIN < signed <= I64_MAX
  }

  /** The row of a balance: one column carries its absolute value, and neither does for zero. */
  function RowOf(account: Account, signed: int): (row: Row)
    requires Displayable(signed)
  {
    Row(account, signed, if signed > 0 then Some(signed) else None, if signed < 0 then Some(-signed) else None)
  }

  method FromSigned(account: Account, signed: i64) returns (r: Result<Row, LedgerError>)
    ensures r.Ok? <==> signed != I64_MIN
    ensures r.Ok? ==> r.value == RowOf(account, signed)
    ensures r.Err? ==> r.error == BalanceOverflow
  {
    var credit: Option<i64> := None;
    if signed < 0 {
      if signed == I64_MIN {
        return Err(BalanceOverflow);
      }
      credit := Some(-signed);
    }
    return Ok(Row(account, signed, if signed > 0 then Some(signed) else None, credit));
  }

  function BalanceIn(balances: map<int, int>, id: AccountId): int {
    if id in balances then balances[id] else 0
  }

  predicate Shown(signed: int, includeZero: bool) {
    signed != 0 || includeZero
  }

  ghost predicate AllDisplayable(accounts: Accounts, entries: seq<LedgerEntry>, home: LedgerEntry -> int) {
    forall i :: 0 <= i < |accounts| ==> Displayable(SumAt(entries, home, accounts[i].key))
  }

  /** The rows of a report: each account in identifier order with the sum of its entries, zero balances on request. */
  ghost function RowsOf(accounts: Accounts, entries: seq<LedgerEntry>, home: LedgerEntry -> int,
      includeZero: bool): seq<Row>
    requires AllDisplayable(accounts, entries, home)
  {
    if accounts == [] then []
    else
      var first := accounts[0];
      (if Shown(SumAt(entries, home, first.key), includeZero)
        then [RowOf(first.value, SumAt(entries, home, first.key))] else [])
      + RowsOf(accounts[1..], entries, home, includeZero)
  }

  /** With zero balances, a report has one row for every account, and its columns say what its balance says. */
  lemma {:induction false} FullRows(accounts: Accounts, entries: seq<LedgerEntry>, home: LedgerEntry -> int, i: nat)
    requires AllDisplayable(accounts, entries, home) && i <= |accounts|
    ensures |RowsOf(accounts, entries, home, true)| == |accounts|
    ensures i < |accounts| ==>
      var row, signed := RowsOf(accounts, entries, home, true)[i], SumAt(entries, home, accounts[i].key);
      && row.account == accounts[i].value && row.signedMinorUnits == signed
      && (row.debit.Some? <==> signed > 0) && (row.debit.Some? ==> row.debit.value == signed)
      && (row.credit.Some? <==> signed < 0) && (row.credit.Some? ==> row.credit.value == -signed)
  {
    if accounts != [] {
      FullRows(accounts[1..], entries, home, if i == 0 then 0 else i - 1);
    }
  }

  function NonZero(rows: seq<Row>): seq<Row> {
    if rows == [] then []
    else (if rows[0].signedMinorUnits == 0 then [] else [rows[0]]) + NonZero(rows[1..])
  }

  /** Without them, it has the same rows in the same order but for those of zero balances. */
  lemma {:induction false} RowsWithoutZeros(accounts: Accounts, entries: seq<LedgerEntry>, home: LedgerEntry -> int)
    requires AllDisplayable(accounts, entries, home)
    ensures RowsOf(accounts, entries, home, false) == NonZero(RowsOf(accounts, entries, home, true))
  {
    if accounts != [] {
      RowsWithoutZeros(accounts[1..], entries, home);
      var row := RowOf(accounts[0].value, SumAt(entries, home, accounts[0].key));
      var rest := RowsOf(accounts[1..], entries, home, true);
      assert ([row] + rest)[1..] == rest;
    }
  }

  function NetOf(rows: seq<Row>): int {
    if rows == [] then 0 else rows[0].signedMinorUnits + NetOf(rows[1..])
  }

  lemma {:induction false} NetOfAdd(a: seq<Row>, b: seq<Row>)
    ensures NetOf(a + b) == NetOf(a) + NetOf(b)
  {
    if a == [] {
      assert a + b == b;
    } else {
      assert (a + b)[1..] == a[1..] + b;
      NetOfAdd(a[1..], b);
    }
  }

  lemma {:induction false} RowsNet(accounts: Accounts, entries: seq<LedgerEntry>, home: LedgerEntry -> int,
      includeZero: bool)
    requires AllDisplayable(accounts, entries, home)
    ensures NetOf(RowsOf(accounts, entries, home, includeZero)) == SumOverChart(accounts, entries, home)
  {
    if accounts != [] {
      var signed := SumAt(entries, home, accounts[0].key);
      RowsNet(accounts[1..], entries, home, includeZero);
      NetOfAdd(if Shown(signed, includeZero) then [RowOf(accounts[0].value, signed)] else [],
               RowsOf(accounts[1..], entries, home, includeZero));
    }
  }

  lemma {:induction false} RowsPush(accounts: Accounts, e: Entry<Account>, entries: seq<LedgerEntry>,
      home: LedgerEntry -> int, includeZero: bool)
    requires AllDisplayable(accounts, entries, home) && Displayable(SumAt(entries, home, e.key))
    ensures AllDisplayable(accounts + [e], entries, home)
    ensures RowsOf(accounts + [e], entries, home, includeZero) ==
      RowsOf(accounts, entries, home, includeZero)
      + (if Shown(SumAt(entries, home, e.key), includeZero) then [RowOf(e.value, SumAt(entries, home, e.key))] else [])
  {
    if accounts != [] {
      assert (accounts + [e])[1..] == accounts[1..] + [e];
      RowsPush(accounts[1..], e, entries, home, includeZero);
    }
  }

  method SumRows(rows: seq<Row>) returns (net: int)
    ensures net == NetOf(rows)
  {
    net := 0;
    for i := 0 to |rows|
      invariant net == NetOf(rows[..i])
    {
      assert rows[..i + 1] == rows[..i] + [rows[i]];
      NetOfAdd(rows[..i], [rows[i]]);
      net := net + rows[i].signedMinorUnits;
    }
    assert rows[..|rows|] == rows;
  }

  method TrialBalanceFromBalances(accounts: Accounts, asOf: Date, includeZero: bool, balances: map<int, int>,
                                  ghost entries: seq<LedgerEntry>, ghost home: LedgerEntry -> int)
    returns (r: Result<TrialBalance, LedgerError>)
    requires forall id :: BalanceIn(balances, id) == SumAt(entries, home, id)
    ensures r.Ok? <==> AllDisplayable(accounts, entries, home) && SumOverChart(accounts, entries, home) == 0
    ensures r.Ok? ==> r.value == TrialBalance(asOf, RowsOf(accounts, entries, home, includeZero))
    ensures r == Err(BalanceOverflow) <==> !AllDisplayable(accounts, entries, home)
    ensures r.Err? ==> r.error in {BalanceOverflow, UnbalancedLedger}
  {
    var rows: seq<Row> := [];
    for i := 0 to |accounts|
      invariant AllDisplayable(accounts[..i], entries, home)
      invariant rows == RowsOf(accounts[..i], entries, home, includeZero)
    {
      var id := accounts[i].key;
      var signed := BalanceIn(balances, id);
      assert signed == SumAt(entries, home, id);
      assert accounts[..i + 1] == accounts[..i] + [accounts[i]];
      if signed != 0 || includeZero {
        if !(I64_MIN <= signed <= I64_MAX) {
          return Err(BalanceOverflow);
        }
        var row := FromSigned(accounts[i].value, signed);
        if row.Err? {
          return Err(row.error);
        }
        RowsPush(accounts[..i], accounts[i], entries, home, includeZero);
        rows := rows + [row.value];
      } else {
        RowsPush(accounts[..i], accounts[i], entries, home, includeZero);
      }
    }
    assert accounts[..|accounts|] == accounts;
    var net := SumRows(rows);
    RowsNet(accounts, entries, home, includeZero);
    if net != 0 {
      return Err(UnbalancedLedger);
    }
    return Ok(TrialBalance(asOf, rows));
  }

  // ---------------------------------------------------------------------
  // Balanced transactions make balanced reports

  lemma {:induction false} SelectedMembers(accounts: Accounts, postings: seq<Posting>, asOf: Date, e: LedgerEntry)
    requires forall i :: 0 <= i < |postings| ==> HasKey(accounts, postings[i].accountId)
    ensures e in Selected(accounts, postings, asOf) <==>
      && e.posting in postings && Reportable(e.posting, asOf)
      && HasKey(accounts, e.posting.accountId) && e.account == Lookup(accounts, e.posting.accountId).value
  {
    if postings != [] {
      var n := |postings| - 1;
      assert postings == postings[..n] + [postings[n]];
      SelectedMembers(accounts, postings[..n], asOf, e);
    }
  }

  /** What holds of every entry of a general ledger. */
  lemma ReportMembers(books: Books, asOf: Date, e: LedgerEntry)
    requires books.Valid() && e in ReportEntries(books, asOf)
    ensures e.posting in books.postings && Reportable(e.posting, asOf) && PostingOk(books.accounts, e.posting)
    ensures Lookup(books.accounts, e.posting.accountId) == Some(e.account) && e.account.id == e.posting.accountId
  {
    var chosen := Selected(books.accounts, books.postings, asOf);
    assert e in multiset(chosen);
    SelectedMembers(books.accounts, books.postings, asOf, e);
    LookupKeyed(books.accounts, e.posting.accountId);
  }

  /**
    Every transaction netting to zero, the accounts net to zero under any grouping into the chart: no ledger is ever
    unbalanced.
  */
  lemma BalancedTransactionsBalanceAccounts(books: Books, asOf: Date, home: LedgerEntry -> int)
    requires books.Valid() && HasGeneralLedger(books, asOf)
    requires forall e :: e in ReportEntries(books, asOf) ==> HasKey(books.accounts, home(e))
    ensures SumOverChart(books.accounts, ReportEntries(books, asOf), home) == 0
  {
    GroupsNetToZero(ReportEntries(books, asOf), ByTransaction());
    ChartCountsEachEntryOnce(books.accounts, ReportEntries(books, asOf), home);
  }

  function DebitOf(row: Row): int {
    if row.debit.Some? then row.debit.value else 0
  }

  function CreditOf(row: Row): int {
    if row.credit.Some? then row.credit.value else 0
  }

  function TotalDebit(rows: seq<Row>): int {
    if rows == [] then 0 else DebitOf(rows[0]) + TotalDebit(rows[1..])
  }

  function TotalCredit(rows: seq<Row>): int {
    if rows == [] then 0 else CreditOf(rows[0]) + TotalCredit(rows[1..])
  }

  /** The row's columns say what its balance says. */
  predicate ProperRow(row: Row) {
    Displayable(row.signedMinorUnits) && row == RowOf(row.account, row.signedMinorUnits)
  }

  /** Rows made from balances have columns that differ by the net. */
  lemma {:induction false} ColumnsNet(rows: seq<Row>)
    requires forall row :: row in rows ==> ProperRow(row)
    ensures TotalDebit(rows) - TotalCredit(rows) == NetOf(rows)
  {
    if rows != [] {
      assert ProperRow(rows[0]);
      ColumnsNet(rows[1..]);
    }
  }

  lemma {:induction false} RowsAreProper(accounts: Accounts, entries: seq<LedgerEntry>, home: LedgerEntry -> int,
      includeZero: bool, row: Row)
    requires AllDisplayable(accounts, entries, home)
    requires row in RowsOf(accounts, entries, home, includeZero)
    ensures ProperRow(row)
    ensures exists i :: 0 <= i < |accounts| && row == RowOf(accounts[i].value, SumAt(entries, home, accounts[i].key))
  {
    var first := RowOf(accounts[0].value, SumAt(entries, home, accounts[0].key));
    if row in RowsOf(accounts[1..], entries, home, includeZero) {
      RowsAreProper(accounts[1..], entries, home, includeZero, row);
      var i :| 0 <= i < |accounts[1..]|
        && row == RowOf(accounts[1..][i].value, SumAt(entries, home, accounts[1..][i].key));
      assert accounts[i + 1] == accounts[1..][i];
    } else {
      assert row == first;
    }
  }

  /** Total debits equal total credits whenever the chart nets to zero. */
  lemma TotalsAgree(accounts: Accounts, entries: seq<LedgerEntry>, home: LedgerEntry -> int, includeZero: bool)
    requires AllDisplayable(accounts, entries, home) && SumOverChart(accounts, entries, home) == 0
    ensures var rows := RowsOf(accounts, entries, home, includeZero); TotalDebit(rows) == TotalCredit(rows)
  {
    forall row | row in RowsOf(accounts, entries, home, includeZero)
      ensures ProperRow(row)
    {
      RowsAreProper(accounts, entries, home, includeZero, row);
    }
    ColumnsNet(RowsOf(accounts, entries, home, includeZero));
    RowsNet(accounts, entries, home, includeZero);
  }

  // ---------------------------------------------------------------------
  // The two reports

  /** Succeeds exactly when the general ledger does and every balance can be shown; it is never found unbalanced. */
  method TrialBalanceAsOf(books: Books, asOf: Date, includeZero: bool) returns (r: Result<TrialBalance, LedgerError>)
    requires books.Valid() && |books.postings| <= U64_MAX
    ensures r.Ok? <==>
      HasGeneralLedger(books, asOf) && AllDisplayable(books.accounts, ReportEntries(books, asOf), ByAccount())
    ensures r.Ok? ==>
      r.value == TrialBalance(asOf, RowsOf(books.accounts, ReportEntries(books, asOf), ByAccount(), includeZero))
    ensures r.Ok? ==> TotalDebit(r.value.rows) == TotalCredit(r.value.rows)
    ensures r != Err(UnbalancedLedger)
    ensures HasGeneralLedger(books, asOf) && r.Err? ==> r == Err(BalanceOverflow)
  {
    var gl := GeneralLedgerAsOf(books, asOf);
    if gl.Err? {
      return Err(gl.error);
    }
    var entries := gl.value.entries;
    ReportIsShort(books, asOf);
    var balances := TotalsBy(entries, ByAccount());
    forall e | e in entries
      ensures HasKey(books.accounts, ByAccount()(e))
    {
      ReportMembers(books, asOf, e);
    }
    BalancedTransactionsBalanceAccounts(books, asOf, ByAccount());
    r := TrialBalanceFromBalances(books.accounts, asOf, includeZero, balances, entries, ByAccount());
    if r.Ok? {
      TotalsAgree(books.accounts, entries, ByAccount(), includeZero);
    }
  }

  datatype AccrualPolicy = AccrualPolicy(fiscalYearStart: Date, retainedEarnings: AccountId)

  ghost predicate PolicyFits(books: Books, asOf: Date, policy: AccrualPolicy) {
    && policy.fiscalYearStart <= asOf
    && HasKey(books.accounts, policy.retainedEarnings)
    && Lookup(books.accounts, policy.retainedEarnings).value.accountType == Equity
  }

  /** The fiscal-year form: the same success condition on its own balances, given a fitting policy. */
  method AccrualTrialBalanceAsOf(books: Books, asOf: Date, includeZero: bool, policy: AccrualPolicy)
    returns (r: Result<TrialBalance, LedgerError>)
    requires books.Valid() && |books.postings| <= U64_MAX
    ensures var home := ByFiscalHome(policy.fiscalYearStart, policy.retainedEarnings);
      && (r.Ok? <==> PolicyFits(books, asOf, policy) && HasGeneralLedger(books, asOf)
                     && AllDisplayable(books.accounts, ReportEntries(books, asOf), home))
      && (r.Ok? ==>
        r.value == TrialBalance(asOf, RowsOf(books.accounts, ReportEntries(books, asOf), home, includeZero)))
    ensures r.Ok? ==> TotalDebit(r.value.rows) == TotalCredit(r.value.rows)
    ensures r != Err(UnbalancedLedger)
    ensures r == Err(FiscalYearStartAfterAsOf) <==> policy.fiscalYearStart > asOf
    ensures r == Err(UnknownRetainedEarnings) <==>
      policy.fiscalYearStart <= asOf && Lookup(books.accounts, policy.retainedEarnings).None?
    ensures r == Err(RetainedEarningsNotEquity) <==>
      var account := Lookup(books.accounts, policy.retainedEarnings);
      policy.fiscalYearStart <= asOf && account.Some? && account.value.accountType != Equity
    ensures PolicyFits(books, asOf, policy) && HasGeneralLedger(books, asOf) && r.Err? ==> r == Err(BalanceOverflow)
  {
    if policy.fiscalYearStart > asOf {
      return Err(FiscalYearStartAfterAsOf);
    }
    if !HasKey(books.accounts, policy.retainedEarnings) {
      return Err(UnknownRetainedEarnings);
    }
    if Lookup(books.accounts, policy.retainedEarnings).value.accountType != Equity {
      return Err(RetainedEarningsNotEquity);
    }
    var gl := GeneralLedgerAsOf(books, asOf);
    if gl.Err? {
      return Err(gl.error);
    }
    var entries := gl.value.entries;
    ReportIsShort(books, asOf);
    var home := ByFiscalHome(policy.fiscalYearStart, policy.retainedEarnings);
    var balances := TotalsBy(entries, home);
    forall e | e in entries
      ensures HasKey(books.accounts, home(e))
    {
      ReportMembers(books, asOf, e);
    }
    BalancedTransactionsBalanceAccounts(books, asOf, home);
    r := TrialBalanceFromBalances(books.accounts, asOf, includeZero, balances, entries, home);
    if r.Ok? {
      TotalsAgree(books.accounts, entries, home, includeZero);
    }
  }
}
