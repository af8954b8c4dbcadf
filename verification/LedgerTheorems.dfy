/** The fiscal roll-forward conserves value, and reports do not depend on the order of the posting stream. */
module LedgerTheorems {
  import opened Outcomes
  import opened SortedMaps
  import opened Accounting
  import opened LedgerSums
  import opened Ledger
  import opened TrialBalances
  import Multisets

  // ---------------------------------------------------------------------
  // Fiscal roll-forward

  /** The account types that a fiscal year starts afresh. */
  predicate IsPnl(t: AccountType) {
    t == Income || t == Expense || t == CostOfGoodsSold
  }

  /** Profit-and-loss entries from before the fiscal year. */
  function EarlierPnl(entries: seq<LedgerEntry>, start: Date): seq<LedgerEntry> {
    if entries == [] then []
    else
      var last := entries[|entries| - 1];
      EarlierPnl(entries[..|entries| - 1], start)
      + (if last.posting.date < start && IsPnl(last.account.accountType) then [last] else [])
  }

  /** Entries dated in the fiscal year. */
  function DatedFrom(entries: seq<LedgerEntry>, start: Date): seq<LedgerEntry> {
    if entries == [] then []
    else
      var last := entries[|entries| - 1];
      DatedFrom(entries[..|entries| - 1], start) + (if last.posting.date >= start then [last] else [])
  }

  /** All entries of an account agree on whether it is a profit-and-loss account. */
  ghost predicate PnlIs(entries: seq<LedgerEntry>, id: AccountId, pnl: bool) {
    forall e :: e in entries && e.posting.accountId == id ==> IsPnl(e.account.accountType) == pnl
  }

  lemma EarlierSum(entries: seq<LedgerEntry>, start: Date, id: AccountId)
    requires entries != []
    ensures var before, last := entries[..|entries| - 1], entries[|entries| - 1];
      SumAt(EarlierPnl(entries, start), ByAccount(), id) == SumAt(EarlierPnl(before, start), ByAccount(), id)
        + (if last.posting.date < start && IsPnl(last.account.accountType) && last.posting.accountId == id
           then last.posting.signedMinorUnits else 0)
  {
    var earlier := EarlierPnl(entries[..|entries| - 1], start);
    SumPush(earlier, entries[|entries| - 1], ByAccount(), id);
    assert earlier + [] == earlier;
  }

  lemma DatedSum(entries: seq<LedgerEntry>, start: Date, id: AccountId)
    requires entries != []
    ensures var before, last := entries[..|entries| - 1], entries[|entries| - 1];
      SumAt(DatedFrom(entries, start), ByAccount(), id) == SumAt(DatedFrom(before, start), ByAccount(), id)
        + (if last.posting.date >= start && last.posting.accountId == id then last.posting.signedMinorUnits else 0)
  {
    var dated := DatedFrom(entries[..|entries| - 1], start);
    SumPush(dated, entries[|entries| - 1], ByAccount(), id);
    assert dated + [] == dated;
  }

  lemma {:induction false} RolledPnl(entries: seq<LedgerEntry>, start: Date, retained: AccountId, id: AccountId)
    requires PnlIs(entries, id, true) && id != retained
    ensures SumAt(entries, ByFiscalHome(start, retained), id) == SumAt(DatedFrom(entries, start), ByAccount(), id)
  {
    if entries != [] {
      RolledPnl(entries[..|entries| - 1], start, retained, id);
      DatedSum(entries, start, id);
      assert entries[|entries| - 1] in entries;
    }
  }

  lemma {:induction false} RolledOther(entries: seq<LedgerEntry>, start: Date, retained: AccountId, id: AccountId)
    requires PnlIs(entries, id, false) && id != retained
    ensures SumAt(entries, ByFiscalHome(start, retained), id) == SumAt(entries, ByAccount(), id)
  {
    if entries != [] {
      RolledOther(entries[..|entries| - 1], start, retained, id);
      assert entries[|entries| - 1] in entries;
    }
  }

  lemma {:induction false} RolledRetained(entries: seq<LedgerEntry>, start: Date, retained: AccountId)
    requires PnlIs(entries, retained, false)
    ensures SumAt(entries, ByFiscalHome(start, retained), retained) ==
      SumAt(entries, ByAccount(), retained) + Net(EarlierPnl(entries, start))
  {
    if entries != [] {
      var before, last := entries[..|entries| - 1], entries[|entries| - 1];
      RolledRetained(before, start, retained);
      SumPush(EarlierPnl(before, start), last, ByAccount(), retained);
      assert EarlierPnl(before, start) + [] == EarlierPnl(before, start);
      assert last in entries;
    }
  }

  lemma ReportPnl(books: Books, asOf: Date, id: AccountId)
    requires books.Valid() && HasKey(books.accounts, id)
    ensures PnlIs(ReportEntries(books, asOf), id, IsPnl(Lookup(books.accounts, id).value.accountType))
  {
    forall e | e in ReportEntries(books, asOf) && e.posting.accountId == id
      ensures IsPnl(e.account.accountType) == IsPnl(Lookup(books.accounts, id).value.accountType)
    {
      ReportMembers(books, asOf, e);
    }
  }

  /**
  Against the plain trial balance, the fiscal-year form keeps a profit-and-loss
  account's postings of the year only, adds the sum of all earlier ones to
  Retained Earnings, and leaves every other account alone.
  */
  lemma FiscalRollForward(books: Books, asOf: Date, policy: AccrualPolicy, id: AccountId)
    requires books.Valid() && PolicyFits(books, asOf, policy) && HasKey(books.accounts, id)
    ensures var entries := ReportEntries(books, asOf);
      var rolled := SumAt(entries, ByFiscalHome(policy.fiscalYearStart, policy.retainedEarnings), id);
      var plain := SumAt(entries, ByAccount(), id);
      if IsPnl(Lookup(books.accounts, id).value.accountType)
      then rolled == SumAt(DatedFrom(entries, policy.fiscalYearStart), ByAccount(), id)
      else if id == policy.retainedEarnings
      then rolled == plain + Net(EarlierPnl(entries, policy.fiscalYearStart))
      else rolled == plain
  {
    var entries := ReportEntries(books, asOf);
    ReportPnl(books, asOf, id);
    if IsPnl(Lookup(books.accounts, id).value.accountType) {
      RolledPnl(entries, policy.fiscalYearStart, policy.retainedEarnings, id);
    } else if id == policy.retainedEarnings {
      RolledRetained(entries, policy.fiscalYearStart, id);
    } else {
      RolledOther(entries, policy.fiscalYearStart, policy.retainedEarnings, id);
    }
  }

  lemma {:induction false} PnlSplitsAtYear(entries: seq<LedgerEntry>, start: Date, id: AccountId)
    requires PnlIs(entries, id, true)
    ensures SumAt(entries, ByAccount(), id)
      == SumAt(DatedFrom(entries, start), ByAccount(), id) + SumAt(EarlierPnl(entries, start), ByAccount(), id)
  {
    if entries != [] {
      PnlSplitsAtYear(entries[..|entries| - 1], start, id);
      DatedSum(entries, start, id);
      EarlierSum(entries, start, id);
      assert entries[|entries| - 1] in entries;
    }
  }

  lemma {:induction false} EarlierPnlOfOther(entries: seq<LedgerEntry>, start: Date, id: AccountId)
    requires PnlIs(entries, id, false)
    ensures SumAt(EarlierPnl(entries, start), ByAccount(), id) == 0
  {
    if entries != [] {
      EarlierPnlOfOther(entries[..|entries| - 1], start, id);
      EarlierSum(entries, start, id);
      assert entries[|entries| - 1] in entries;
    }
  }

  /** No profit-and-loss account has anything left over from before the fiscal year. */
  ghost predicate NothingToRoll(entries: seq<LedgerEntry>, start: Date) {
    forall id :: SumAt(EarlierPnl(entries, start), ByAccount(), id) == 0
  }

  /** How far an account's balance in the fiscal-year form is from its plain balance. */
  lemma RollDifference(books: Books, asOf: Date, policy: AccrualPolicy, id: AccountId)
    requires books.Valid() && PolicyFits(books, asOf, policy) && HasKey(books.accounts, id)
    ensures var entries := ReportEntries(books, asOf);
      var earlier := EarlierPnl(entries, policy.fiscalYearStart);
      var rolled := SumAt(entries, ByFiscalHome(policy.fiscalYearStart, policy.retainedEarnings), id);
      rolled - SumAt(entries, ByAccount(), id)
        == (if id == policy.retainedEarnings then Net(earlier) else 0) - SumAt(earlier, ByAccount(), id)
  {
    var entries := ReportEntries(books, asOf);
    ReportPnl(books, asOf, id);
    FiscalRollForward(books, asOf, policy, id);
    if IsPnl(Lookup(books.accounts, id).value.accountType) {
      PnlSplitsAtYear(entries, policy.fiscalYearStart, id);
    } else {
      EarlierPnlOfOther(entries, policy.fiscalYearStart, id);
    }
  }

  /** Rolling forward moves value between accounts and changes no total. */
  lemma RollForwardConserves(books: Books, asOf: Date, policy: AccrualPolicy)
    requires books.Valid() && PolicyFits(books, asOf, policy)
    ensures SumOverChart(books.accounts, ReportEntries(books, asOf),
      ByFiscalHome(policy.fiscalYearStart, policy.retainedEarnings))
         == SumOverChart(books.accounts, ReportEntries(books, asOf), ByAccount())
  {
    var entries := ReportEntries(books, asOf);
    var home := ByFiscalHome(policy.fiscalYearStart, policy.retainedEarnings);
    forall e | e in entries
      ensures HasKey(books.accounts, home(e)) && HasKey(books.accounts, ByAccount()(e))
    {
      ReportMembers(books, asOf, e);
    }
    ChartCountsEachEntryOnce(books.accounts, entries, home);
    ChartCountsEachEntryOnce(books.accounts, entries, ByAccount());
  }

  // ---------------------------------------------------------------------
  // The posting stream may come in any order

  lemma {:induction false} SelectedCount(accounts: Accounts, postings: seq<Posting>, asOf: Date, e: LedgerEntry)
    requires forall i :: 0 <= i < |postings| ==> HasKey(accounts, postings[i].accountId)
    ensures multiset(Selected(accounts, postings, asOf))[e] ==
      if Reportable(e.posting, asOf) && Lookup(accounts, e.posting.accountId) == Some(e.account)
      then multiset(postings)[e.posting] else 0
  {
    if postings != [] {
      var before, last := postings[..|postings| - 1], postings[|postings| - 1];
      assert postings == before + [last];
      SelectedCount(accounts, before, asOf, e);
    }
  }

  lemma MemberHasIndex(s: seq<Posting>, t: seq<Posting>, i: nat) returns (j: nat)
    requires multiset(s) == multiset(t) && i < |s|
    ensures j < |t| && t[j] == s[i]
  {
    assert s[i] in multiset(t);
    j :| 0 <= j < |t| && t[j] == s[i];
  }

  lemma SelectedPermuted(accounts: Accounts, s: seq<Posting>, t: seq<Posting>, asOf: Date)
    requires multiset(s) == multiset(t)
    requires forall i :: 0 <= i < |s| ==> HasKey(accounts, s[i].accountId)
    requires forall i :: 0 <= i < |t| ==> HasKey(accounts, t[i].accountId)
    ensures multiset(Selected(accounts, s, asOf)) == multiset(Selected(accounts, t, asOf))
  {
    forall e
      ensures multiset(Selected(accounts, s, asOf))[e] == multiset(Selected(accounts, t, asOf))[e]
    {
      SelectedCount(accounts, s, asOf, e);
      SelectedCount(accounts, t, asOf, e);
    }
  }

  lemma ReportDistinct(books: Books, asOf: Date)
    requires books.Valid()
    ensures DistinctPostings(ReportEntries(books, asOf))
  {
    forall a, b | a in ReportEntries(books, asOf) && b in ReportEntries(books, asOf) && a.posting.id == b.posting.id
      ensures a == b
    {
      ReportMembers(books, asOf, a);
      ReportMembers(books, asOf, b);
      var i :| 0 <= i < |books.postings| && books.postings[i] == a.posting;
      var j :| 0 <= j < |books.postings| && books.postings[j] == b.posting;
      assert i == j;
    }
  }

  lemma {:induction false} CountOnce(s: seq<Posting>, p: Posting)
    requires forall i, j :: 0 <= i < j < |s| ==> s[i] != s[j]
    ensures multiset(s)[p] <= 1
  {
    if s != [] {
      var n := |s| - 1;
      assert s == s[..n] + [s[n]];
      CountOnce(s[..n], p);
      if p == s[n] {
        assert p !in s[..n];
        assert multiset(s[..n])[p] == 0;
      }
    }
  }

  /** A ledger accepts a posting stream in one order exactly when it accepts it in another. */
  lemma PostingsOkPermuted(accounts: Accounts, s: seq<Posting>, t: seq<Posting>)
    requires multiset(s) == multiset(t) && PostingsOk(accounts, s)
    ensures PostingsOk(accounts, t)
  {
    forall i | 0 <= i < |t|
      ensures PostingOk(accounts, t[i])
    {
      var k := MemberHasIndex(t, s, i);
    }
    forall i, j | 0 <= i < j < |t|
      ensures t[i].id != t[j].id && t[i].sourceRow != t[j].sourceRow
    {
      var k := MemberHasIndex(t, s, i);
      var l := MemberHasIndex(t, s, j);
      if k == l {
        Multisets.CountTwice(t, i, j);
        CountOnce(s, t[i]);
      } else if k < l {
        assert s[k].id != s[l].id && s[k].sourceRow != s[l].sourceRow;
      } else {
        assert s[l].id != s[k].id && s[l].sourceRow != s[k].sourceRow;
      }
    }
  }

  /** A general ledger is the same list of entries for every order of the posting stream. */
  lemma ReportIgnoresPostingOrder(books: Books, shuffled: seq<Posting>, asOf: Date)
    requires books.Valid() && multiset(books.postings) == multiset(shuffled)
    ensures var other := books.(postings := shuffled);
      && other.Valid()
      && ReportEntries(other, asOf) == ReportEntries(books, asOf)
      && (HasGeneralLedger(other, asOf) <==> HasGeneralLedger(books, asOf))
  {
    var other := books.(postings := shuffled);
    PostingsOkPermuted(books.accounts, books.postings, shuffled);
    SelectedPermuted(books.accounts, books.postings, shuffled, asOf);
    SortedInOrder(Selected(books.accounts, books.postings, asOf));
    SortedInOrder(Selected(books.accounts, shuffled, asOf));
    ReportDistinct(books, asOf);
    OrderIsUnique(ReportEntries(books, asOf), ReportEntries(other, asOf));
    SettledPermuted(books, other, asOf);
    SettledPermuted(other, books, asOf);
  }

  lemma SettledPermuted(books: Books, other: Books, asOf: Date)
    requires multiset(books.postings) == multiset(other.postings) && books.completeness == other.completeness
    ensures Settled(books, asOf) ==> Settled(other, asOf)
  {
    forall i | 0 <= i < |other.postings| && Settled(books, asOf)
      ensures !Blocking(other.postings[i], asOf)
    {
      var j := MemberHasIndex(other.postings, books.postings, i);
    }
  }

  // ---------------------------------------------------------------------
  // What a general ledger lists, and in which order

  lemma DistinctIndices(books: Books, asOf: Date, i: nat, j: nat)
    requires books.Valid() && i < j < |ReportEntries(books, asOf)|
    ensures ReportEntries(books, asOf)[i].posting != ReportEntries(books, asOf)[j].posting
  {
    var entries := ReportEntries(books, asOf);
    var chosen := Selected(books.accounts, books.postings, asOf);
    if entries[i].posting == entries[j].posting {
      ReportMembers(books, asOf, entries[i]);
      ReportMembers(books, asOf, entries[j]);
      Multisets.CountTwice(entries, i, j);
      SelectedCount(books.accounts, books.postings, asOf, entries[j]);
      CountOnce(books.postings, entries[j].posting);
    }
  }

  lemma DistinctFields(books: Books, p: Posting, q: Posting)
    requires books.Valid() && p in books.postings && q in books.postings && p != q
    ensures p.id != q.id && p.sourceRow != q.sourceRow
  {
    var k :| 0 <= k < |books.postings| && books.postings[k] == p;
    var l :| 0 <= l < |books.postings| && books.postings[l] == q;
    if k < l {
      assert books.postings[k].id != books.postings[l].id;
    } else {
      assert books.postings[l].id != books.postings[k].id;
    }
  }

  /** The entries are the current postings up to the date, each once and with its account of the chart. */
  lemma ReportHolds(books: Books, asOf: Date, e: LedgerEntry)
    requires books.Valid()
    ensures multiset(ReportEntries(books, asOf))[e] ==
      if e.posting in books.postings && e.posting.state == Current && e.posting.date <= asOf
        && Lookup(books.accounts, e.posting.accountId) == Some(e.account)
      then 1 else 0
  {
    SelectedCount(books.accounts, books.postings, asOf, e);
    CountOnce(books.postings, e.posting);
  }

  /**
    Later entries have later dates; on one date, greater account identifiers; in one account on one date, greater
    transaction identifiers; and in one transaction there, greater posting identifiers.
   */
  lemma ReportIsOrdered(books: Books, asOf: Date, i: nat, j: nat)
    requires books.Valid() && i < j < |ReportEntries(books, asOf)|
    ensures var a, b := ReportEntries(books, asOf)[i], ReportEntries(books, asOf)[j];
      && a.posting.date <= b.posting.date
      && (a.posting.date == b.posting.date ==> a.account.id <= b.account.id)
      && (a.posting.date == b.posting.date && a.account.id == b.account.id ==>
            a.posting.transactionId <= b.posting.transactionId)
      && (a.posting.date == b.posting.date && a.account.id == b.account.id ==>
            a.posting.transactionId == b.posting.transactionId ==> a.posting.id < b.posting.id)
  {
    var a, b := ReportEntries(books, asOf)[i], ReportEntries(books, asOf)[j];
    SortedInOrder(Selected(books.accounts, books.postings, asOf));
    assert !Before(b, a);
    DistinctIndices(books, asOf, i, j);
    ReportMembers(books, asOf, a);
    ReportMembers(books, asOf, b);
    DistinctFields(books, a.posting, b.posting);
  }
}
