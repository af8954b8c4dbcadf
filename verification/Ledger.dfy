/** The validated ledger and the reports drawn from it. */
module Ledger {
  import opened Integers
  import opened Outcomes
  import opened SortedMaps
  import opened Accounting
  import opened Hierarchy
  import opened HierarchyNames
  import opened LedgerSums

  datatype Completeness = Complete | Incomplete | Unsupported

  datatype LedgerError =
    | DuplicateAccount | HierarchyRejected(verdict: Verdict)
    | ZeroPosting | UnknownAccount | DuplicatePosting | DuplicateProvenance
    | IncompleteData | UnsupportedData | AmbiguousCurrentState
    | UnbalancedTransaction | UnbalancedLedger | BalanceOverflow
    | FiscalYearStartAfterAsOf | UnknownRetainedEarnings | RetainedEarningsNotEquity

  /** One posting that a ledger over this chart may hold. */
  predicate PostingOk(accounts: Accounts, p: Posting) {
    p.signedMinorUnits != 0 && p.signedMinorUnits != I64_MIN && HasKey(accounts, p.accountId)
  }

  ghost predicate PostingsOk(accounts: Accounts, postings: seq<Posting>) {
    && (forall i :: 0 <= i < |postings| ==> PostingOk(accounts, postings[i]))
    && (forall i, j :: 0 <= i < j < |postings| ==>
      postings[i].id != postings[j].id && postings[i].sourceRow != postings[j].sourceRow)
  }

  datatype Books = Books(accounts: Accounts, postings: seq<Posting>, completeness: Completeness) {
    ghost predicate Valid() {
      WellKeyed(accounts) && IsVerdict(accounts, Verdict.Clean) && PostingsOk(accounts, postings)
    }
  }

  ghost predicate DistinctAccountIds(accounts: seq<Account>) {
    forall i, j :: 0 <= i < j < |accounts| ==> accounts[i].id != accounts[j].id
  }

  /** The chart is the accounts supplied, and each has its own identifier. */
  method CollectAccounts(accounts: seq<Account>) returns (r: Result<Accounts, LedgerError>)
    ensures r.Ok? <==> DistinctAccountIds(accounts)
    ensures r.Ok? ==> r.value == ById(accounts) && WellKeyed(r.value)
    ensures r.Err? ==> r.error == DuplicateAccount
  {
    var chart: Accounts := [];
    for i := 0 to |accounts|
      invariant DistinctAccountIds(accounts[..i])
      invariant chart == ById(accounts[..i]) && WellKeyed(chart)
      invariant forall id :: HasKey(chart, id) <==> exists k :: 0 <= k < i && accounts[k].id == id
    {
      var account := accounts[i];
      if HasKey(chart, account.id) {
        return Err(DuplicateAccount);
      }
      assert accounts[..i + 1][..i] == accounts[..i];
      InsertIsWellKeyed(chart, account);
      chart := Insert(chart, account.id, account);
    }
    assert accounts[..|accounts|] == accounts;
    return Ok(chart);
  }

  lemma InsertIsWellKeyed(chart: Accounts, account: Account)
    requires WellKeyed(chart)
    ensures WellKeyed(Insert(chart, account.id, account))
    ensures forall id :: HasKey(Insert(chart, account.id, account), id) <==> HasKey(chart, id) || id == account.id
  {
    var after := Insert(chart, account.id, account);
    InsertAscending(chart, account.id, account);
    forall i | 0 <= i < |after|
      ensures after[i].value.id == after[i].key
    {
      assert after[i] in after;
      InsertMembers(chart, account.id, account, after[i]);
    }
    forall id
      ensures HasKey(after, id) <==> HasKey(chart, id) || id == account.id
    {
      if HasKey(after, id) {
        var i :| 0 <= i < |after| && after[i].key == id;
        InsertMembers(chart, account.id, account, after[i]);
      }
      if HasKey(chart, id) && id != account.id {
        var i :| 0 <= i < |chart| && chart[i].key == id;
        InsertMembers(chart, account.id, account, chart[i]);
      }
      InsertMembers(chart, account.id, account, Entry(account.id, account));
    }
  }

  /** The first posting that cannot be held, and the first reason there is. */
  ghost predicate Refused(accounts: Accounts, postings: seq<Posting>, i: nat, error: LedgerError) {
    && i < |postings| && PostingsOk(accounts, postings[..i])
    && var p := postings[i];
       var known := exists k :: 0 <= k < i && postings[k].id == p.id;
       var placed := exists k :: 0 <= k < i && postings[k].sourceRow == p.sourceRow;
       if p.signedMinorUnits == 0 || p.signedMinorUnits == I64_MIN then error == ZeroPosting
       else if !HasKey(accounts, p.accountId) then error == UnknownAccount
       else if known then error == DuplicatePosting
       else placed && error == DuplicateProvenance
  }

  method CheckPostings(accounts: Accounts, postings: seq<Posting>) returns (r: Result<(), LedgerError>)
    ensures r.Ok? <==> PostingsOk(accounts, postings)
    ensures r.Err? ==> exists i :: Refused(accounts, postings, i, r.error)
  {
    var postingIds: set<PostingId> := {};
    var sourceRows: set<SourceRow> := {};
    for i := 0 to |postings|
      invariant PostingsOk(accounts, postings[..i])
      invariant forall id :: id in postingIds <==> exists k :: 0 <= k < i && postings[k].id == id
      invariant forall row :: row in sourceRows <==> exists k :: 0 <= k < i && postings[k].sourceRow == row
    {
      var posting := postings[i];
      if posting.signedMinorUnits == 0 || posting.signedMinorUnits == I64_MIN {
        assert Refused(accounts, postings, i, ZeroPosting);
        return Err(ZeroPosting);
      }
      if !HasKey(accounts, posting.accountId) {
        assert Refused(accounts, postings, i, UnknownAccount);
        return Err(UnknownAccount);
      }
      if posting.id in postingIds {
        assert Refused(accounts, postings, i, DuplicatePosting);
        return Err(DuplicatePosting);
      }
      postingIds := postingIds + {posting.id};
      if posting.sourceRow in sourceRows {
        assert Refused(accounts, postings, i, DuplicateProvenance);
        return Err(DuplicateProvenance);
      }
      sourceRows := sourceRows + {posting.sourceRow};
      assert postings[..i + 1] == postings[..i] + [posting];
    }
    assert postings[..|postings|] == postings;
    return Ok(());
  }

  method NewLedger(accounts: seq<Account>, postings: seq<Posting>, completeness: Completeness)
    returns (r: Result<Books, LedgerError>)
    ensures r.Ok? <==>
      && (forall i, j :: 0 <= i < j < |accounts| ==> accounts[i].id != accounts[j].id)
      && ParentClosed(ById(accounts)) && Acyclic(ById(accounts))
      && PostingsOk(ById(accounts), postings)
    ensures r.Ok? ==> r.value == Books(ById(accounts), postings, completeness) && r.value.Valid()
    ensures r.Err? && r.error !in {DuplicateAccount} && !r.error.HierarchyRejected? ==>
      exists i :: Refused(ById(accounts), postings, i, r.error)
    ensures r.Err? && r.error.HierarchyRejected? ==>
      IsVerdict(ById(accounts), r.error.verdict) && r.error.verdict != Clean
    ensures r == Err(DuplicateAccount) <==> exists i, j :: 0 <= i < j < |accounts| && accounts[i].id == accounts[j].id
  {
    var collected := CollectAccounts(accounts);
    if collected.Err? {
      return Err(collected.error);
    }
    var chart := collected.value;
    AcceptedExactly(chart);
    var verdict := ValidateAccountHierarchy(chart);
    if verdict != Verdict.Clean {
      return Err(HierarchyRejected(verdict));
    }
    var checked := CheckPostings(chart, postings);
    if checked.Err? {
      return Err(checked.error);
    }
    return Ok(Books(chart, postings, completeness));
  }

  // ---------------------------------------------------------------------
  // General ledger

  predicate Reportable(p: Posting, asOf: Date) {
    p.state == Current && p.date <= asOf
  }

  predicate Blocking(p: Posting, asOf: Date) {
    p.state == Ambiguous && p.date <= asOf
  }

  /** The current postings up to a date, each with its account, in posting order. */
  function Selected(accounts: Accounts, postings: seq<Posting>, asOf: Date): seq<LedgerEntry>
    requires forall i :: 0 <= i < |postings| ==> HasKey(accounts, postings[i].accountId)
  {
    if postings == [] then []
    else
      var last := postings[|postings| - 1];
      Selected(accounts, postings[..|postings| - 1], asOf)
      + (if Reportable(last, asOf) then [LedgerEntry(Lookup(accounts, last.accountId).value, last)] else [])
  }

  ghost predicate AccountsKnown(books: Books) {
    forall i :: 0 <= i < |books.postings| ==> HasKey(books.accounts, books.postings[i].accountId)
  }

  /** The ledger can be reported up to a date. */
  ghost predicate Settled(books: Books, asOf: Date) {
    books.completeness == Complete && forall i :: 0 <= i < |books.postings| ==> !Blocking(books.postings[i], asOf)
  }

  method CurrentPostingsAsOf(books: Books, asOf: Date) returns (r: Result<seq<LedgerEntry>, LedgerError>)
    requires AccountsKnown(books)
    ensures r.Ok? <==> Settled(books, asOf)
    ensures r.Ok? ==> r.value == SortedEntries(Selected(books.accounts, books.postings, asOf))
    ensures r == Err(IncompleteData) <==> books.completeness == Incomplete
    ensures r == Err(UnsupportedData) <==> books.completeness == Unsupported
    ensures r == Err(AmbiguousCurrentState) <==>
      books.completeness == Complete && exists p :: p in books.postings && p.state == Ambiguous && p.date <= asOf
    ensures r.Err? ==> r.error in {IncompleteData, UnsupportedData, AmbiguousCurrentState}
  {
    match books.completeness {
      case Complete =>
      case Incomplete => return Err(IncompleteData);
      case Unsupported => return Err(UnsupportedData);
    }
    var entries: seq<LedgerEntry> := [];
    for i := 0 to |books.postings|
      invariant forall k :: 0 <= k < i ==> !Blocking(books.postings[k], asOf)
      invariant entries == Selected(books.accounts, books.postings[..i], asOf)
    {
      var posting := books.postings[i];
      assert books.postings[..i + 1][..i] == books.postings[..i];
      if posting.state == Current && posting.date <= asOf {
        entries := entries + [LedgerEntry(Lookup(books.accounts, posting.accountId).value, posting)];
      } else if posting.state == Ambiguous && posting.date <= asOf {
        return Err(AmbiguousCurrentState);
      }
    }
    assert books.postings[..|books.postings|] == books.postings;
    return Ok(SortedEntries(entries));
  }

  /** Groupings used by the reports. */
  function ByTransaction(): LedgerEntry -> int {
    (e: LedgerEntry) => e.posting.transactionId
  }

  function ByAccount(): LedgerEntry -> int {
    (e: LedgerEntry) => e.posting.accountId
  }

  /**
    Profit and loss from before the fiscal year goes to Retained Earnings, everything else stays where it was posted.
  */
  function ByFiscalHome(fiscalYearStart: Date, retainedEarnings: AccountId): LedgerEntry -> int {
    (e: LedgerEntry) => if IsEarlierPnl(e, fiscalYearStart) then retainedEarnings else e.posting.accountId
  }

  predicate IsEarlierPnl(e: LedgerEntry, fiscalYearStart: Date) {
    e.posting.date < fiscalYearStart && e.account.accountType.IsProfitAndLoss()
  }

  ghost predicate EveryTransactionBalances(entries: seq<LedgerEntry>) {
    forall t :: SumAt(entries, ByTransaction(), t) == 0
  }

  /** The entries of one transaction. */
  function OfTransaction(entries: seq<LedgerEntry>, t: TransactionId): seq<LedgerEntry> {
    if entries == [] then []
    else
      var last := entries[|entries| - 1];
      OfTransaction(entries[..|entries| - 1], t) + (if last.posting.transactionId == t then [last] else [])
  }

  lemma {:induction false} TransactionNet(entries: seq<LedgerEntry>, t: TransactionId)
    ensures SumAt(entries, ByTransaction(), t) == Net(OfTransaction(entries, t))
  {
    if entries != [] {
      var before, last := OfTransaction(entries[..|entries| - 1], t), entries[|entries| - 1];
      TransactionNet(entries[..|entries| - 1], t);
      assert (before + [last])[..|before|] == before && before + [] == before;
    }
  }

  lemma BalancesByTransaction(entries: seq<LedgerEntry>)
    ensures EveryTransactionBalances(entries) <==> forall t :: Net(OfTransaction(entries, t)) == 0
  {
    forall t
      ensures SumAt(entries, ByTransaction(), t) == Net(OfTransaction(entries, t))
    {
      TransactionNet(entries, t);
    }
    if !EveryTransactionBalances(entries) {
      var t :| SumAt(entries, ByTransaction(), t) != 0;
      assert Net(OfTransaction(entries, t)) != 0;
    }
  }

  method AssertBalancedByTransaction(entries: seq<LedgerEntry>) returns (balanced: bool)
    requires |entries| <= U64_MAX
    ensures balanced <==> EveryTransactionBalances(entries)
    ensures balanced <==> forall t :: Net(OfTransaction(entries, t)) == 0
  {
    BalancesByTransaction(entries);
    var totals := TotalsBy(entries, ByTransaction());
    if t :| t in totals && totals[t] != 0 {
      assert SumAt(entries, ByTransaction(), t) != 0;
      return false;
    }
    return true;
  }

  datatype GeneralLedger = GeneralLedger(asOf: Date, entries: seq<LedgerEntry>)

  ghost function ReportEntries(books: Books, asOf: Date): seq<LedgerEntry>
    requires AccountsKnown(books)
  {
    SortedEntries(Selected(books.accounts, books.postings, asOf))
  }

  /** A general ledger exists for this date. */
  ghost predicate HasGeneralLedger(books: Books, asOf: Date)
    requires AccountsKnown(books)
  {
    Settled(books, asOf) && EveryTransactionBalances(ReportEntries(books, asOf))
  }

  lemma {:induction false} SelectedIsShort(accounts: Accounts, postings: seq<Posting>, asOf: Date)
    requires forall i :: 0 <= i < |postings| ==> HasKey(accounts, postings[i].accountId)
    ensures |Selected(accounts, postings, asOf)| <= |postings|
  {
    if postings != [] {
      SelectedIsShort(accounts, postings[..|postings| - 1], asOf);
    }
  }

  lemma ReportIsShort(books: Books, asOf: Date)
    requires AccountsKnown(books)
    ensures |ReportEntries(books, asOf)| <= |books.postings|
  {
    var chosen := Selected(books.accounts, books.postings, asOf);
    SelectedIsShort(books.accounts, books.postings, asOf);
    assert |multiset(SortedEntries(chosen))| == |multiset(chosen)|;
  }

  method GeneralLedgerAsOf(books: Books, asOf: Date) returns (r: Result<GeneralLedger, LedgerError>)
    requires books.Valid() && |books.postings| <= U64_MAX
    ensures r.Ok? <==> HasGeneralLedger(books, asOf)
    ensures r.Ok? ==> r.value == GeneralLedger(asOf, ReportEntries(books, asOf))
    ensures r == Err(UnbalancedTransaction) <==>
      Settled(books, asOf) && !EveryTransactionBalances(ReportEntries(books, asOf))
    ensures r.Err? ==> r.error in {IncompleteData, UnsupportedData, AmbiguousCurrentState, UnbalancedTransaction}
  {
    var current := CurrentPostingsAsOf(books, asOf);
    if current.Err? {
      return Err(current.error);
    }
    ReportIsShort(books, asOf);
    var balanced := AssertBalancedByTransaction(current.value);
    if !balanced {
      return Err(UnbalancedTransaction);
    }
    return Ok(GeneralLedger(asOf, current.value));
  }
}
