/** Parent chains of a chart of accounts, and the check that rejects broken and circular ones. */
module Hierarchy {
  import opened Outcomes
  import opened SortedMaps
  import opened Accounting

  /** Where `n` steps from child to parent lead; nowhere once a root or a missing account has been passed. */
  ghost function Up(accounts: Accounts, id: AccountId, n: nat): Option<AccountId> {
    if n == 0 then Some(id)
    else
      match Up(accounts, id, n - 1)
      case None => None
      case Some(below) => ParentOf(accounts, below)
  }

  function ParentOf(accounts: Accounts, id: AccountId): Option<AccountId> {
    match Lookup(accounts, id)
    case None => None
    case Some(account) => account.parent
  }

  /** The chain reaches an account without a parent. */
  ghost predicate EndsAtRoot(accounts: Accounts, id: AccountId) {
    exists n: nat :: RootAt(accounts, id, n)
  }

  ghost predicate RootAt(accounts: Accounts, id: AccountId, n: nat) {
    var top := Up(accounts, id, n);
    top.Some? && HasKey(accounts, top.value) && ParentOf(accounts, top.value) == None
  }

  /** The chain reaches an identifier that no account has. */
  ghost predicate RunsOff(accounts: Accounts, id: AccountId) {
    exists n: nat :: MissingAt(accounts, id, n)
  }

  ghost predicate MissingAt(accounts: Accounts, id: AccountId, n: nat) {
    var top := Up(accounts, id, n);
    top.Some? && !HasKey(accounts, top.value)
  }

  /** The chain never ends. */
  ghost predicate Endless(accounts: Accounts, id: AccountId) {
    forall n: nat :: Up(accounts, id, n).Some?
  }

  // ---------------------------------------------------------------------
  // Chains

  lemma {:induction false} UpAdd(accounts: Accounts, id: AccountId, a: nat, b: nat)
    requires Up(accounts, id, a).Some?
    ensures Up(accounts, id, a + b) == Up(accounts, Up(accounts, id, a).value, b)
  {
    if b > 0 {
      UpAdd(accounts, id, a, b - 1);
    }
  }

  lemma {:induction false} UpEarlier(accounts: Accounts, id: AccountId, m: nat, n: nat)
    requires m <= n && Up(accounts, id, n).Some?
    ensures Up(accounts, id, m).Some?
    ensures m < n ==> HasKey(accounts, Up(accounts, id, m).value) && ParentOf(accounts, Up(accounts, id, m).value).Some?
  {
    if m < n {
      UpEarlier(accounts, id, m, n - 1);
    }
  }

  /** A chain that meets the same account twice never ends. */
  lemma {:induction false} RepeatNeverEnds(accounts: Accounts, id: AccountId, i: nat, j: nat, n: nat)
    requires i < j && Up(accounts, id, i).Some? && Up(accounts, id, i) == Up(accounts, id, j)
    ensures Up(accounts, id, n).Some?
    decreases n
  {
    if n <= j {
      UpEarlier(accounts, id, n, j);
    } else {
      var rest := n - j;
      UpAdd(accounts, id, j, rest);
      UpAdd(accounts, id, i, rest);
      RepeatNeverEnds(accounts, id, i, j, i + rest);
      assert j + rest == n;
    }
  }

  /** A chain has exactly one of the three fates; here, that a root excludes the others. */
  lemma RootExcludes(accounts: Accounts, id: AccountId, n: nat)
    requires RootAt(accounts, id, n)
    ensures !Endless(accounts, id) && !RunsOff(accounts, id)
  {
    assert Up(accounts, id, n + 1) == None;
    forall m: nat | MissingAt(accounts, id, m)
      ensures false
    {
      if m <= n {
        UpEarlier(accounts, id, m, n);
      } else {
        UpEarlier(accounts, id, n + 1, m);
      }
    }
  }

  lemma MissingExcludesEndless(accounts: Accounts, id: AccountId, n: nat)
    requires MissingAt(accounts, id, n)
    ensures !Endless(accounts, id)
  {
    assert Up(accounts, id, n + 1) == None;
  }

  // ---------------------------------------------------------------------
  // The check

  datatype Verdict = Clean | SelfParent | UnknownParent | Cycle | MissingKeyPanic

  /** What the check finds when it starts at one account. */
  ghost function Fate(accounts: Accounts, id: AccountId): Verdict
    requires HasKey(accounts, id)
  {
    var parent := ParentOf(accounts, id);
    if parent == Some(id) then SelfParent
    else if parent.Some? && !HasKey(accounts, parent.value) then UnknownParent
    else if Endless(accounts, id) then Cycle
    else if RunsOff(accounts, id) then MissingKeyPanic
    else Clean
  }

  /** The accounts met on the first `n` steps. */
  ghost function Passed(accounts: Accounts, id: AccountId, n: nat): set<AccountId> {
    if n == 0 then {}
    else
      match Up(accounts, id, n - 1)
      case None => Passed(accounts, id, n - 1)
      case Some(x) => Passed(accounts, id, n - 1) + {x}
  }

  lemma {:induction false} PassedAt(accounts: Accounts, id: AccountId, n: nat, x: AccountId) returns (k: nat)
    requires x in Passed(accounts, id, n)
    ensures k < n && Up(accounts, id, k) == Some(x)
  {
    if Up(accounts, id, n - 1) == Some(x) {
      k := n - 1;
    } else {
      k := PassedAt(accounts, id, n - 1, x);
    }
  }

  /** Accounts passed on the way to somewhere are all in the chart. */
  lemma {:induction false} PassedInside(accounts: Accounts, id: AccountId, n: nat)
    requires Up(accounts, id, n).Some?
    ensures Passed(accounts, id, n) <= Ids(accounts)
  {
    if n > 0 {
      UpEarlier(accounts, id, n - 1, n);
      PassedInside(accounts, id, n - 1);
    }
  }

  lemma PassedAgain(accounts: Accounts, id: AccountId, n: nat)
    requires Up(accounts, id, n).Some? && Up(accounts, id, n).value in Passed(accounts, id, n)
    ensures Endless(accounts, id)
  {
    var k := PassedAt(accounts, id, n, Up(accounts, id, n).value);
    NeverEnds(accounts, id, k, n);
  }

  /** The check of one account. */
  method CheckAccount(accounts: Accounts, account: Account) returns (v: Verdict)
    requires WellKeyed(accounts) && Lookup(accounts, account.id) == Some(account)
    ensures v == Fate(accounts, account.id)
  {
    if account.parent.None? {
      assert RootAt(accounts, account.id, 0);
      RootExcludes(accounts, account.id, 0);
      return Clean;
    }
    var parentId := account.parent.value;
    if parentId == account.id {
      return SelfParent;
    }
    if !HasKey(accounts, parentId) {
      return UnknownParent;
    }
    v := WalkUp(accounts, account);
  }

  /** The walk, which remembers the accounts it has passed. */
  method WalkUp(accounts: Accounts, account: Account) returns (v: Verdict)
    requires WellKeyed(accounts) && Lookup(accounts, account.id) == Some(account)
    requires account.parent != Some(account.id)
    ensures v ==
      if Endless(accounts, account.id) then Cycle
      else if RunsOff(accounts, account.id) then MissingKeyPanic
      else Clean
  {
    var visited: set<AccountId> := {};
    var cursor := account.id;
    ghost var n: nat := 0;
    while true
      invariant Up(accounts, account.id, n) == Some(cursor)
      invariant visited == Passed(accounts, account.id, n)
      decreases Ids(accounts) - visited
    {
      if !HasKey(accounts, cursor) {
        // The source indexes its map here without a guard.
        assert MissingAt(accounts, account.id, n);
        MissingExcludesEndless(accounts, account.id, n);
        return MissingKeyPanic;
      }
      var next := Lookup(accounts, cursor).value.parent;
      if next.None? {
        assert RootAt(accounts, account.id, n);
        RootExcludes(accounts, account.id, n);
        return Clean;
      }
      if cursor in visited || next.value == account.id {
        assert Up(accounts, account.id, n + 1) == next;
        if cursor in visited {
          PassedAgain(accounts, account.id, n);
        } else {
          assert Up(accounts, account.id, 0) == Some(account.id);
          NeverEnds(accounts, account.id, 0, n + 1);
        }
        return Cycle;
      }
      PassedInside(accounts, account.id, n + 1);
      visited := visited + {cursor};
      cursor := next.value;
      n := n + 1;
    }
  }

  lemma NeverEnds(accounts: Accounts, id: AccountId, i: nat, j: nat)
    requires i < j && Up(accounts, id, i).Some? && Up(accounts, id, i) == Up(accounts, id, j)
    ensures Endless(accounts, id)
  {
    forall n: nat
      ensures Up(accounts, id, n).Some?
    {
      RepeatNeverEnds(accounts, id, i, j, n);
    }
  }

  /** The verdict on a chart is that of its first account that is not clean. */
  ghost predicate IsVerdict(accounts: Accounts, v: Verdict) {
    if v == Clean then forall i :: 0 <= i < |accounts| ==> Fate(accounts, accounts[i].key) == Clean
    else exists i :: 0 <= i < |accounts| && FirstOffender(accounts, i, v)
  }

  ghost predicate FirstOffender(accounts: Accounts, i: nat, v: Verdict)
    requires i < |accounts|
  {
    && v != Clean
    && Fate(accounts, accounts[i].key) == v
    && forall j :: 0 <= j < i ==> Fate(accounts, accounts[j].key) == Clean
  }

  method ValidateAccountHierarchy(accounts: Accounts) returns (v: Verdict)
    requires WellKeyed(accounts)
    ensures IsVerdict(accounts, v)
  {
    for i := 0 to |accounts|
      invariant forall j :: 0 <= j < i ==> Fate(accounts, accounts[j].key) == Clean
    {
      LookupAt(accounts, i);
      v := CheckAccount(accounts, accounts[i].value);
      if v != Clean {
        assert FirstOffender(accounts, i, v);
        return;
      }
    }
    v := Clean;
  }

  // ---------------------------------------------------------------------
  // What acceptance means

  ghost predicate ParentClosed(accounts: Accounts) {
    forall id :: HasKey(accounts, id) && ParentOf(accounts, id).Some? ==> HasKey(accounts, ParentOf(accounts, id).value)
  }

  /** No account is its own proper ancestor. */
  ghost predicate Acyclic(accounts: Accounts) {
    forall id, n: nat :: HasKey(accounts, id) && n > 0 ==> Up(accounts, id, n) != Some(id)
  }

  /** The identifiers met on the first `n` steps. */
  ghost function Trail(accounts: Accounts, id: AccountId, n: nat): (t: seq<AccountId>)
    requires Endless(accounts, id)
    ensures |t| == n
  {
    seq(n, k requires 0 <= k < n => Up(accounts, id, k).value)
  }

  /** More places than distinct members: some member is repeated. */
  lemma {:induction false} Pigeonhole(s: seq<int>, members: set<int>) returns (i: nat, j: nat)
    requires |s| > |members| && forall k :: 0 <= k < |s| ==> s[k] in members
    ensures i < j < |s| && s[i] == s[j]
  {
    var last := s[|s| - 1];
    var rest := s[..|s| - 1];
    if last in rest {
      i :| 0 <= i < |rest| && rest[i] == last;
      j := |s| - 1;
    } else {
      i, j := Pigeonhole(rest, members - {last});
    }
  }

  lemma RepeatIsCycle(accounts: Accounts, id: AccountId, i: nat, j: nat)
    requires i < j && Up(accounts, id, i).Some? && Up(accounts, id, i) == Up(accounts, id, j)
    requires HasKey(accounts, Up(accounts, id, i).value)
    ensures !Acyclic(accounts)
  {
    var x := Up(accounts, id, i).value;
    UpAdd(accounts, id, i, j - i);
    assert Up(accounts, x, j - i) == Some(x);
  }

  /** In a chart of finitely many accounts, an endless chain holds a cycle. */
  lemma EndlessHasCycle(accounts: Accounts, id: AccountId)
    requires Endless(accounts, id)
    ensures !Acyclic(accounts)
  {
    var n := |Ids(accounts)| + 1;
    var trail := Trail(accounts, id, n);
    forall k | 0 <= k < n
      ensures trail[k] in Ids(accounts)
    {
      UpEarlier(accounts, id, k, k + 1);
    }
    var i, j := Pigeonhole(trail, Ids(accounts));
    RepeatIsCycle(accounts, id, i, j);
  }

  lemma CycleIsEndless(accounts: Accounts, id: AccountId, n: nat)
    requires n > 0 && Up(accounts, id, n) == Some(id)
    ensures Endless(accounts, id)
  {
    NeverEnds(accounts, id, 0, n);
  }

  /** The check accepts exactly the charts in which every named parent exists and nobody is their own ancestor. */
  lemma AcceptedExactly(accounts: Accounts)
    requires WellKeyed(accounts)
    ensures IsVerdict(accounts, Clean) <==> ParentClosed(accounts) && Acyclic(accounts)
  {
    if IsVerdict(accounts, Clean) {
      forall id | HasKey(accounts, id)
        ensures Fate(accounts, id) == Clean
      {
        var i :| 0 <= i < |accounts| && accounts[i].key == id;
      }
      forall id, n: nat | HasKey(accounts, id) && n > 0
        ensures Up(accounts, id, n) != Some(id)
      {
        assert !Endless(accounts, id);
        if Up(accounts, id, n) == Some(id) {
          CycleIsEndless(accounts, id, n);
        }
      }
    }
    if ParentClosed(accounts) && Acyclic(accounts) {
      forall i | 0 <= i < |accounts|
        ensures Fate(accounts, accounts[i].key) == Clean
      {
        ClosedAcyclicIsClean(accounts, accounts[i].key);
      }
    }
  }

  /** A chart of roots only is accepted. */
  lemma RootsAreClean(accounts: Accounts)
    requires forall i :: 0 <= i < |accounts| ==> ParentOf(accounts, accounts[i].key).None?
    ensures IsVerdict(accounts, Clean)
  {
    forall i | 0 <= i < |accounts|
      ensures Fate(accounts, accounts[i].key) == Clean
    {
      assert Up(accounts, accounts[i].key, 1).None?;
    }
  }

  lemma ClosedAcyclicIsClean(accounts: Accounts, id: AccountId)
    requires HasKey(accounts, id) && ParentClosed(accounts) && Acyclic(accounts)
    ensures Fate(accounts, id) == Clean
  {
    assert Up(accounts, id, 1) == ParentOf(accounts, id);
    ClosedNeverRunsOff(accounts, id);
    if Endless(accounts, id) {
      EndlessHasCycle(accounts, id);
    }
  }

  lemma ClosedNeverRunsOff(accounts: Accounts, id: AccountId)
    requires HasKey(accounts, id) && ParentClosed(accounts)
    ensures !RunsOff(accounts, id)
  {
    forall n: nat
      ensures !MissingAt(accounts, id, n)
    {
      ClosedStaysInside(accounts, id, n);
    }
  }

  lemma {:induction false} ClosedStaysInside(accounts: Accounts, id: AccountId, n: nat)
    requires HasKey(accounts, id) && ParentClosed(accounts)
    ensures Up(accounts, id, n).Some? ==> HasKey(accounts, Up(accounts, id, n).value)
  {
    if n > 0 {
      ClosedStaysInside(accounts, id, n - 1);
    }
  }

  /** On charts where every named parent exists the check neither panics nor reports a missing parent. */
  lemma ClosedChartNeverPanics(accounts: Accounts, v: Verdict)
    requires WellKeyed(accounts) && ParentClosed(accounts) && IsVerdict(accounts, v)
    ensures v != MissingKeyPanic && v != UnknownParent
    ensures v == Clean <==> Acyclic(accounts)
  {
    AcceptedExactly(accounts);
    if v != Clean {
      var i :| 0 <= i < |accounts| && FirstOffender(accounts, i, v);
      ClosedFate(accounts, accounts[i].key);
    }
    UniqueVerdict(accounts, v);
  }

  lemma ClosedFate(accounts: Accounts, id: AccountId)
    requires HasKey(accounts, id) && ParentClosed(accounts)
    ensures Fate(accounts, id) != MissingKeyPanic && Fate(accounts, id) != UnknownParent
  {
    ClosedNeverRunsOff(accounts, id);
  }

  lemma UniqueVerdict(accounts: Accounts, v: Verdict)
    requires IsVerdict(accounts, v)
    ensures v == Clean <==> IsVerdict(accounts, Clean)
  {
    if v != Clean {
      var i :| 0 <= i < |accounts| && FirstOffender(accounts, i, v);
      assert Fate(accounts, accounts[i].key) != Clean;
    }
  }

  /** A chain that neither runs off nor goes on forever ends at a root. */
  lemma CleanEndsAtRoot(accounts: Accounts, id: AccountId)
    requires !Endless(accounts, id) && !RunsOff(accounts, id)
    ensures EndsAtRoot(accounts, id)
  {
    var n: nat :| Up(accounts, id, n).None?;
    LastStep(accounts, id, n);
  }

  lemma {:induction false} LastStep(accounts: Accounts, id: AccountId, n: nat)
    requires Up(accounts, id, n).None? && !RunsOff(accounts, id)
    ensures EndsAtRoot(accounts, id)
  {
    if Up(accounts, id, n - 1).None? {
      LastStep(accounts, id, n - 1);
    } else {
      assert !MissingAt(accounts, id, n - 1);
      assert RootAt(accounts, id, n - 1);
    }
  }

  /** Every account before this one leads up to a root; its own chain gets past its parent and then runs off. */
  ghost predicate PanicsAt(accounts: Accounts, i: nat)
    requires i < |accounts|
  {
    && RunsOff(accounts, accounts[i].key) && !MissingAt(accounts, accounts[i].key, 1)
    && forall j :: 0 <= j < i ==> EndsAtRoot(accounts, accounts[j].key)
  }

  lemma PanicFate(accounts: Accounts, id: AccountId)
    requires HasKey(accounts, id)
    ensures Fate(accounts, id) == MissingKeyPanic <==> RunsOff(accounts, id) && !MissingAt(accounts, id, 1)
  {
    assert Up(accounts, id, 1) == ParentOf(accounts, id);
    if RunsOff(accounts, id) {
      var n: nat :| MissingAt(accounts, id, n);
      MissingExcludesEndless(accounts, id, n);
      if ParentOf(accounts, id) == Some(id) {
        OwnParentStays(accounts, id, n);
      }
    }
  }

  lemma {:induction false} OwnParentStays(accounts: Accounts, id: AccountId, n: nat)
    requires ParentOf(accounts, id) == Some(id)
    ensures Up(accounts, id, n) == Some(id)
  {
    if n > 0 {
      OwnParentStays(accounts, id, n - 1);
    }
  }

  lemma CleanFate(accounts: Accounts, id: AccountId)
    requires HasKey(accounts, id)
    ensures Fate(accounts, id) == Clean <==> EndsAtRoot(accounts, id)
  {
    if Fate(accounts, id) == Clean {
      CleanEndsAtRoot(accounts, id);
    }
    if EndsAtRoot(accounts, id) {
      var n: nat :| RootAt(accounts, id, n);
      RootExcludes(accounts, id, n);
      assert Up(accounts, id, 1) == ParentOf(accounts, id) && !MissingAt(accounts, id, 1);
      if ParentOf(accounts, id) == Some(id) {
        OwnParentStays(accounts, id, n);
      }
    }
  }

  /**
    The check panics exactly when the first chain that does not reach a root runs off above the account's own parent.
  */
  lemma PanicsExactly(accounts: Accounts, v: Verdict)
    requires WellKeyed(accounts) && IsVerdict(accounts, v)
    ensures v == MissingKeyPanic <==> exists i :: 0 <= i < |accounts| && PanicsAt(accounts, i)
  {
    forall i | 0 <= i < |accounts|
      ensures Fate(accounts, accounts[i].key) == MissingKeyPanic
        <==> RunsOff(accounts, accounts[i].key) && !MissingAt(accounts, accounts[i].key, 1)
      ensures Fate(accounts, accounts[i].key) == Clean <==> EndsAtRoot(accounts, accounts[i].key)
    {
      PanicFate(accounts, accounts[i].key);
      CleanFate(accounts, accounts[i].key);
    }
    if v == MissingKeyPanic {
      var i :| 0 <= i < |accounts| && FirstOffender(accounts, i, v);
      assert PanicsAt(accounts, i);
    }
    if i :| 0 <= i < |accounts| && PanicsAt(accounts, i) {
      assert Fate(accounts, accounts[i].key) == MissingKeyPanic;
      if v != Clean {
        var k :| 0 <= k < |accounts| && FirstOffender(accounts, k, v);
        assert k == i;
      }
    }
  }

  /** The verdict is about the first account whose chain does not reach a root, and says what is wrong with it. */
  lemma VerdictOfFirst(accounts: Accounts, v: Verdict, i: nat)
    requires WellKeyed(accounts) && IsVerdict(accounts, v) && i < |accounts|
    requires !EndsAtRoot(accounts, accounts[i].key)
    requires forall j :: 0 <= j < i ==> EndsAtRoot(accounts, accounts[j].key)
    ensures var account := accounts[i].value;
      && account.parent.Some? && v != Clean
      && (v == SelfParent <==> account.parent.value == account.id)
      && (v == UnknownParent <==> forall other :: other in accounts ==> other.key != account.parent.value)
      && (v == Cycle <==> account.parent.value != account.id && Endless(accounts, account.id))
  {
    forall j | 0 <= j <= i
      ensures Fate(accounts, accounts[j].key) == Clean <==> EndsAtRoot(accounts, accounts[j].key)
    {
      CleanFate(accounts, accounts[j].key);
    }
    var k :| 0 <= k < |accounts| && (v == Clean || FirstOffender(accounts, k, v));
    assert v != Clean && k == i;
    FateOf(accounts, i);
  }

  lemma FateOf(accounts: Accounts, i: nat)
    requires WellKeyed(accounts) && i < |accounts| && Fate(accounts, accounts[i].key) != Clean
    ensures var account, v := accounts[i].value, Fate(accounts, accounts[i].key);
      && account.parent.Some?
      && (v == SelfParent <==> account.parent.value == account.id)
      && (v == UnknownParent <==> forall other :: other in accounts ==> other.key != account.parent.value)
      && (v == Cycle <==> account.parent.value != account.id && Endless(accounts, account.id))
  {
    var account := accounts[i].value;
    LookupAt(accounts, i);
    if account.parent.None? {
      assert RootAt(accounts, account.id, 0);
      RootExcludes(accounts, account.id, 0);
    } else {
      var parent := account.parent.value;
      assert HasKey(accounts, parent) <==> exists other :: other in accounts && other.key == parent;
      assert Up(accounts, account.id, 1) == Some(parent);
      assert Up(accounts, account.id, 2) == ParentOf(accounts, parent);
    }
  }

  /** Two accounts are enough to make the check panic instead of naming the missing parent. */
  lemma PanicExample(accounts: Accounts, a: Account, b: Account)
    requires a.id == 1 && a.parent == Some(2) && b.id == 2 && b.parent == Some(3)
    requires accounts == [Entry(1, a), Entry(2, b)]
    ensures WellKeyed(accounts) && IsVerdict(accounts, MissingKeyPanic)
  {
    assert accounts[0].key == 1 && accounts[1].key == 2;
    assert Lookup(accounts, 1) == Some(a) && Lookup(accounts, 2) == Some(b);
    assert Up(accounts, 1, 1) == Some(2);
    assert Up(accounts, 1, 2) == Some(3);
    assert MissingAt(accounts, 1, 2);
    MissingExcludesEndless(accounts, 1, 2);
    assert FirstOffender(accounts, 0, MissingKeyPanic);
  }
}
