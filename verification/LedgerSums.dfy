/** Sums over ledger entries, and the deterministic order of a general ledger. */
module LedgerSums {
  import opened Integers
  import opened SortedMaps
  import opened Accounting

  /** A general-ledger entry: a posting with its account. */
  datatype LedgerEntry = LedgerEntry(account: Account, posting: Posting)

  function Net(entries: seq<LedgerEntry>): int {
    if entries == [] then 0
    else Net(entries[..|entries| - 1]) + entries[|entries| - 1].posting.signedMinorUnits
  }

  /** The sum of the entries that a grouping sends to `key`. */
  function SumAt(entries: seq<LedgerEntry>, home: LedgerEntry -> int, key: int): int {
    if entries == [] then 0
    else
      var last := entries[|entries| - 1];
      SumAt(entries[..|entries| - 1], home, key) + (if home(last) == key then last.posting.signedMinorUnits else 0)
  }

  /**
    Partial sums of signed 64-bit amounts stay inside a signed 128-bit accumulator for any number of postings a 64-bit
    machine can hold.
  */
  lemma {:induction false} SumFitsI128(entries: seq<LedgerEntry>, home: LedgerEntry -> int, key: int)
    requires |entries| <= U64_MAX
    ensures -I128_MAX <= SumAt(entries, home, key) <= I128_MAX
    ensures -I128_MAX <= Net(entries) <= I128_MAX
  {
    SumBound(entries, home, key);
    assert |entries| * -I64_MIN <= U64_MAX * -I64_MIN;
  }

  lemma {:induction false} SumBound(entries: seq<LedgerEntry>, home: LedgerEntry -> int, key: int)
    ensures -(|entries| * -I64_MIN) <= SumAt(entries, home, key) <= |entries| * -I64_MIN
    ensures -(|entries| * -I64_MIN) <= Net(entries) <= |entries| * -I64_MIN
  {
    if entries != [] {
      SumBound(entries[..|entries| - 1], home, key);
    }
  }

  /** The balance of every account of a chart, added up. */
  function SumOverChart(accounts: Accounts, entries: seq<LedgerEntry>, home: LedgerEntry -> int): int {
    if accounts == [] then 0
    else SumAt(entries, home, accounts[0].key) + SumOverChart(accounts[1..], entries, home)
  }

  /** Adding up the balances of all accounts counts every entry once, if every entry has its home in the chart. */
  lemma {:induction false} ChartCountsEachEntryOnce(accounts: Accounts, entries: seq<LedgerEntry>,
      home: LedgerEntry -> int)
    requires Ascending(accounts)
    requires forall e :: e in entries ==> HasKey(accounts, home(e))
    ensures SumOverChart(accounts, entries, home) == Net(entries)
  {
    if entries == [] {
      EmptyChartSum(accounts, home);
    } else {
      var last := entries[|entries| - 1];
      var before := entries[..|entries| - 1];
      ChartCountsEachEntryOnce(accounts, before, home);
      OneMoreEntry(accounts, before, last, home);
      assert entries == before + [last];
    }
  }

  lemma {:induction false} EmptyChartSum(accounts: Accounts, home: LedgerEntry -> int)
    ensures SumOverChart(accounts, [], home) == 0
  {
    if accounts != [] {
      EmptyChartSum(accounts[1..], home);
    }
  }

  lemma {:induction false} OneMoreEntry(accounts: Accounts, entries: seq<LedgerEntry>, last: LedgerEntry,
      home: LedgerEntry -> int)
    requires Ascending(accounts)
    ensures SumOverChart(accounts, entries + [last], home) ==
      SumOverChart(accounts, entries, home)
      + (if HasKey(accounts, home(last)) then last.posting.signedMinorUnits else 0)
  {
    if accounts != [] {
      var more := entries + [last];
      assert more[..|more| - 1] == entries;
      OneMoreEntry(accounts[1..], entries, last, home);
      if accounts[0].key == home(last) {
        forall e | e in accounts[1..]
          ensures e.key > accounts[0].key
        {
          AboveHead(accounts, e);
        }
        assert !HasKey(accounts[1..], home(last));
      } else {
        KeyInTail(accounts, home(last));
      }
    }
  }

  // ---------------------------------------------------------------------
  // Groups that each net to zero

  function Without(entries: seq<LedgerEntry>, home: LedgerEntry -> int, key: int): (r: seq<LedgerEntry>)
    ensures |r| <= |entries|
  {
    if entries == [] then []
    else
      var last := entries[|entries| - 1];
      var r := Without(entries[..|entries| - 1], home, key);
      if home(last) == key then r else r + [last]
  }

  lemma {:induction false} WithoutSums(entries: seq<LedgerEntry>, home: LedgerEntry -> int, key: int, other: int)
    ensures Net(entries) == Net(Without(entries, home, key)) + SumAt(entries, home, key)
    ensures SumAt(Without(entries, home, key), home, other) == if other == key then 0 else SumAt(entries, home, other)
  {
    if entries != [] {
      var last := entries[|entries| - 1];
      var r := Without(entries[..|entries| - 1], home, key);
      WithoutSums(entries[..|entries| - 1], home, key, other);
      if home(last) == key {
        assert Without(entries, home, key) == r;
      } else {
        assert Without(entries, home, key) == r + [last];
        SumPush(r, last, home, other);
      }
    }
  }

  lemma SumPush(entries: seq<LedgerEntry>, e: LedgerEntry, home: LedgerEntry -> int, key: int)
    ensures Net(entries + [e]) == Net(entries) + e.posting.signedMinorUnits
    ensures SumAt(entries + [e], home, key)
      == SumAt(entries, home, key) + (if home(e) == key then e.posting.signedMinorUnits else 0)
  {
    assert (entries + [e])[..|entries|] == entries;
  }

  lemma {:induction false} WithoutShrinks(entries: seq<LedgerEntry>, home: LedgerEntry -> int, key: int)
    requires entries != [] && home(entries[|entries| - 1]) == key
    ensures |Without(entries, home, key)| < |entries|
  {
  }

  /** If every group nets to zero, so does the whole. */
  lemma {:induction false} GroupsNetToZero(entries: seq<LedgerEntry>, home: LedgerEntry -> int)
    requires forall key :: SumAt(entries, home, key) == 0
    ensures Net(entries) == 0
    decreases |entries|
  {
    if entries != [] {
      var key := home(entries[|entries| - 1]);
      WithoutShrinks(entries, home, key);
      forall other
        ensures SumAt(Without(entries, home, key), home, other) == 0
      {
        WithoutSums(entries, home, key, other);
      }
      GroupsNetToZero(Without(entries, home, key), home);
      WithoutSums(entries, home, key, key);
    }
  }

  /** The accumulation loop of the reports: a map from group to running total. */
  method TotalsBy(entries: seq<LedgerEntry>, home: LedgerEntry -> int) returns (totals: map<int, int>)
    requires |entries| <= U64_MAX
    ensures forall key :: (if key in totals then totals[key] else 0) == SumAt(entries, home, key)
    ensures forall key :: key in totals <==> exists e :: e in entries && home(e) == key
  {
    totals := map[];
    for i := 0 to |entries|
      invariant forall key :: (if key in totals then totals[key] else 0) == SumAt(entries[..i], home, key)
      invariant forall key :: key in totals <==> exists e :: e in entries[..i] && home(e) == key
    {
      var e := entries[i];
      var key := home(e);
      assert entries[..i + 1] == entries[..i] + [e];
      assert entries[..i + 1][..i] == entries[..i];
      // The running total never leaves the 128-bit accumulator.
      SumFitsI128(entries[..i + 1], home, key);
      totals := totals[key := (if key in totals then totals[key] else 0) + e.posting.signedMinorUnits];
    }
    assert entries[..|entries|] == entries;
  }

  // ---------------------------------------------------------------------
  // Order

  /** Date, then account, then transaction, then posting. */
  predicate Before(a: LedgerEntry, b: LedgerEntry) {
    if a.posting.date != b.posting.date then a.posting.date < b.posting.date
    else if a.account.id != b.account.id then a.account.id < b.account.id
    else if a.posting.transactionId != b.posting.transactionId then a.posting.transactionId < b.posting.transactionId
    else a.posting.id < b.posting.id
  }

  /** A stable sort by the report key: each entry goes in front of the later ones that do not precede it. */
  function Inserted(sorted: seq<LedgerEntry>, e: LedgerEntry): (r: seq<LedgerEntry>)
    ensures multiset(r) == multiset(sorted) + multiset{e}
  {
    if sorted == [] then [e]
    else if Before(e, sorted[0]) then [e] + sorted
    else
      assert sorted == [sorted[0]] + sorted[1..];
      [sorted[0]] + Inserted(sorted[1..], e)
  }

  function SortedEntries(entries: seq<LedgerEntry>): (r: seq<LedgerEntry>)
    ensures multiset(r) == multiset(entries)
  {
    if entries == [] then []
    else
      assert entries == entries[..|entries| - 1] + [entries[|entries| - 1]];
      Inserted(SortedEntries(entries[..|entries| - 1]), entries[|entries| - 1])
  }

  /** No entry is preceded by a later one. */
  ghost predicate InOrder(s: seq<LedgerEntry>) {
    forall i, j :: 0 <= i < j < |s| ==> !Before(s[j], s[i])
  }

  lemma BeforeTransitive(a: LedgerEntry, b: LedgerEntry, c: LedgerEntry)
    requires !Before(b, a) && !Before(c, b)
    ensures !Before(c, a)
  {
  }

  lemma {:induction false} InsertedInOrder(sorted: seq<LedgerEntry>, e: LedgerEntry)
    requires InOrder(sorted)
    ensures InOrder(Inserted(sorted, e))
  {
    if sorted != [] {
      if Before(e, sorted[0]) {
        forall j | 0 <= j < |sorted|
          ensures !Before(sorted[j], e)
        {
          if j > 0 {
            BeforeTransitive(e, sorted[0], sorted[j]);
          }
        }
      } else {
        var rest := Inserted(sorted[1..], e);
        InsertedInOrder(sorted[1..], e);
        forall j | 0 <= j < |rest|
          ensures !Before(rest[j], sorted[0])
        {
          assert rest[j] in multiset(rest);
          assert rest[j] == e || rest[j] in sorted[1..];
        }
      }
    }
  }

  lemma {:induction false} SortedInOrder(entries: seq<LedgerEntry>)
    ensures InOrder(SortedEntries(entries))
  {
    if entries != [] {
      SortedInOrder(entries[..|entries| - 1]);
      InsertedInOrder(SortedEntries(entries[..|entries| - 1]), entries[|entries| - 1]);
    }
  }

  ghost predicate DistinctPostings(entries: seq<LedgerEntry>) {
    forall a, b :: a in entries && b in entries && a.posting.id == b.posting.id ==> a == b
  }

  /** The first of an ordered list is preceded by none of its members. */
  lemma HeadIsFirst(s: seq<LedgerEntry>, e: LedgerEntry)
    requires InOrder(s) && e in s
    ensures !Before(e, s[0])
  {
    var i :| 0 <= i < |s| && s[i] == e;
  }

  lemma TailMultiset(s: seq<LedgerEntry>)
    requires s != []
    ensures multiset(s[1..]) == multiset(s) - multiset{s[0]}
  {
    assert s == [s[0]] + s[1..];
  }

  lemma SameHead(s: seq<LedgerEntry>, t: seq<LedgerEntry>)
    requires InOrder(s) && InOrder(t) && multiset(s) == multiset(t)
    requires DistinctPostings(s) && s != []
    ensures t != [] && s[0] == t[0]
  {
    assert s[0] in multiset(t);
    assert t[0] in multiset(s);
    HeadIsFirst(s, t[0]);
    HeadIsFirst(t, s[0]);
  }

  lemma TailKeeps(s: seq<LedgerEntry>)
    requires InOrder(s) && DistinctPostings(s) && s != []
    ensures InOrder(s[1..]) && DistinctPostings(s[1..])
  {
  }

  /** Ordered lists of the same entries are the same list, because posting identifiers break every tie. */
  lemma {:induction false} OrderIsUnique(s: seq<LedgerEntry>, t: seq<LedgerEntry>)
    requires InOrder(s) && InOrder(t) && multiset(s) == multiset(t)
    requires DistinctPostings(s)
    ensures s == t
  {
    if s == [] {
      assert |multiset(t)| == 0;
    } else {
      SameHead(s, t);
      TailMultiset(s);
      TailMultiset(t);
      TailKeeps(s);
      OrderIsUnique(s[1..], t[1..]);
      assert s == [s[0]] + s[1..];
      assert t == [t[0]] + t[1..];
    }
  }
}
