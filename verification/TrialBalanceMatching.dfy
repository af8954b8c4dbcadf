/** Comparing two trial balances account by account and cent by cent. */
module TrialBalanceMatching {
  import opened Integers
  import opened Money
  import opened NameOrder
  import opened Outcomes

  datatype Row = Row(account: string, cents: int)

  datatype TrialBalance = TrialBalance(balances: map<string, int>, debits: int, credits: int)

  datatype BalanceError = EmptyAccountName | DuplicateAccount(account: string) | TotalOverflow

  datatype Variance = Variance(account: string, cents: int)

  datatype Comparison = Comparison(
    missing: seq<Variance>,
    extra: seq<Variance>,
    mismatched: seq<Variance>,
    referenceDebits: int,
    referenceCredits: int,
    actualDebits: int,
    actualCredits: int,
    debitVariance: int,
    creditVariance: int,
    netVariance: int,
    maxVariance: nat)
  {
    predicate Passes() {
      && missing == [] && extra == [] && mismatched == []
      && referenceDebits == referenceCredits && actualDebits == actualCredits
      && debitVariance == 0 && creditVariance == 0 && netVariance == 0 && maxVariance == 0
    }
  }

  // ---------------------------------------------------------------------
  // Collecting balances

  function Debit(cents: int): nat {
    if cents >= 0 then cents else 0
  }

  function Credit(cents: int): nat {
    if cents < 0 then -cents else 0
  }

  function Debits(rows: seq<Row>): nat {
    if rows == [] then 0 else Debits(rows[..|rows| - 1]) + Debit(rows[|rows| - 1].cents)
  }

  function Credits(rows: seq<Row>): nat {
    if rows == [] then 0 else Credits(rows[..|rows| - 1]) + Credit(rows[|rows| - 1].cents)
  }

  function NetCents(rows: seq<Row>): int {
    if rows == [] then 0 else NetCents(rows[..|rows| - 1]) + rows[|rows| - 1].cents
  }

  /** All cents whatever their sign. */
  function Turnover(rows: seq<Row>): nat {
    if rows == [] then 0
    else
      var last := rows[|rows| - 1].cents;
      Turnover(rows[..|rows| - 1]) + (if last < 0 then -last else last)
  }

  /** Debits and credits share out the cents by their sign. */
  lemma {:induction false} TotalsBySign(rows: seq<Row>)
    ensures Debits(rows) - Credits(rows) == NetCents(rows) && Debits(rows) + Credits(rows) == Turnover(rows)
  {
    if rows != [] {
      TotalsBySign(rows[..|rows| - 1]);
    }
  }

  /** The balance of every account, under its trimmed name. */
  function Balances(rows: seq<Row>): map<string, int> {
    if rows == [] then map[]
    else
      var last := rows[|rows| - 1];
      Balances(rows[..|rows| - 1])[Trim(last.account) := last.cents]
  }

  /** Every row has a name, no two have the same, and both totals fit 64 bits. */
  predicate Acceptable(rows: seq<Row>) {
    && (forall i :: 0 <= i < |rows| ==> Trim(rows[i].account) != [])
    && (forall i, j :: 0 <= i < j < |rows| ==> Trim(rows[i].account) != Trim(rows[j].account))
    && Debits(rows) <= I64_MAX && Credits(rows) <= I64_MAX
  }

  lemma {:induction false} NamesAreKeys(rows: seq<Row>, account: string)
    ensures account in Balances(rows) <==> exists i :: 0 <= i < |rows| && Trim(rows[i].account) == account
  {
    if rows != [] {
      var before, last := rows[..|rows| - 1], rows[|rows| - 1];
      NamesAreKeys(before, account);
      assert Trim(last.account) == account ==> Trim(rows[|rows| - 1].account) == account;
      assert forall i :: 0 <= i < |before| ==> before[i] == rows[i];
    }
  }

  /** What is wrong with the rows so far stays wrong. */
  lemma {:induction false} PrefixIsAcceptable(rows: seq<Row>, n: nat)
    requires n <= |rows| && Acceptable(rows)
    ensures Acceptable(rows[..n])
    decreases |rows|
  {
    if n < |rows| {
      var before := rows[..|rows| - 1];
      assert rows[..n] == before[..n];
      PrefixIsAcceptable(before, n);
    } else {
      assert rows[..n] == rows;
    }
  }

  /** What one more row adds. */
  lemma NextRow(rows: seq<Row>, i: nat)
    requires i < |rows|
    ensures Balances(rows[..i + 1]) == Balances(rows[..i])[Trim(rows[i].account) := rows[i].cents]
    ensures Debits(rows[..i + 1]) == Debits(rows[..i]) + Debit(rows[i].cents)
    ensures Credits(rows[..i + 1]) == Credits(rows[..i]) + Credit(rows[i].cents)
  {
    assert rows[..i + 1][..i] == rows[..i];
  }

  /** The name of row `i` is there and new among the rows before it. */
  ghost predicate NewName(rows: seq<Row>, i: nat)
    requires i < |rows|
  {
    Trim(rows[i].account) != [] && Trim(rows[i].account) !in Balances(rows[..i])
  }

  lemma LastNameIsNew(rows: seq<Row>, i: nat)
    requires i < |rows| && Acceptable(rows[..i + 1])
    ensures NewName(rows, i)
  {
    var seen, name := rows[..i + 1], Trim(rows[i].account);
    assert seen[i] == rows[i];
    NamesAreKeys(rows[..i], name);
    forall k | 0 <= k < i ensures Trim(rows[..i][k].account) != name {
      assert rows[..i][k] == seen[k];
    }
  }

  lemma NewNameIsAcceptable(rows: seq<Row>, i: nat)
    requires i < |rows| && Acceptable(rows[..i]) && NewName(rows, i)
    requires Debits(rows[..i + 1]) <= I64_MAX && Credits(rows[..i + 1]) <= I64_MAX
    ensures Acceptable(rows[..i + 1])
  {
    var seen, before := rows[..i + 1], rows[..i];
    NamesAreKeys(before, Trim(rows[i].account));
    forall j, k | 0 <= j < k < |seen| ensures Trim(seen[j].account) != Trim(seen[k].account) {
      assert seen[j] == before[j];
      if k < i {
        assert seen[k] == before[k];
      }
    }
    forall k | 0 <= k < |seen| ensures Trim(seen[k].account) != [] {
      if k < i {
        assert seen[k] == before[k];
      }
    }
  }

  /** When one more row is still acceptable. */
  lemma NextAcceptable(rows: seq<Row>, i: nat)
    requires i < |rows|
    ensures Acceptable(rows[..i + 1]) <==>
      Acceptable(rows[..i]) && NewName(rows, i) && Debits(rows[..i + 1]) <= I64_MAX && Credits(rows[..i + 1]) <= I64_MAX
  {
    if Acceptable(rows[..i + 1]) {
      assert rows[..i + 1][..i] == rows[..i];
      PrefixIsAcceptable(rows[..i + 1], i);
      LastNameIsNew(rows, i);
    } else if Acceptable(rows[..i]) && NewName(rows, i) {
      if Debits(rows[..i + 1]) <= I64_MAX && Credits(rows[..i + 1]) <= I64_MAX {
        NewNameIsAcceptable(rows, i);
      }
    }
  }

  /** The first row that is not accepted, and the first reason there is. */
  ghost predicate RefusedRow(rows: seq<Row>, i: nat, error: BalanceError) {
    && i < |rows| && Acceptable(rows[..i])
    && var name := Trim(rows[i].account);
       if name == [] then error == EmptyAccountName
       else if exists k :: 0 <= k < i && Trim(rows[k].account) == name then error == DuplicateAccount(name)
       else error == TotalOverflow
  }

  lemma KnownName(rows: seq<Row>, i: nat)
    requires i < |rows|
    ensures Trim(rows[i].account) in Balances(rows[..i])
      <==> exists k :: 0 <= k < i && Trim(rows[k].account) == Trim(rows[i].account)
  {
    NamesAreKeys(rows[..i], Trim(rows[i].account));
    assert forall k :: 0 <= k < i ==> rows[..i][k] == rows[k];
  }

  method FromBalances(rows: seq<Row>) returns (r: Result<TrialBalance, BalanceError>)
    requires forall i :: 0 <= i < |rows| ==> I64_MIN <= rows[i].cents <= I64_MAX
    ensures r.Ok? <==> Acceptable(rows)
    ensures r.Ok? ==> r.value == TrialBalance(Balances(rows), Debits(rows), Credits(rows))
    ensures r.Err? ==> exists i :: RefusedRow(rows, i, r.error)
  {
    var balances: map<string, int> := map[];
    var debits, credits := 0, 0;
    for i := 0 to |rows|
      invariant Acceptable(rows[..i])
      invariant balances == Balances(rows[..i]) && debits == Debits(rows[..i]) && credits == Credits(rows[..i])
    {
      NextRow(rows, i);
      NextAcceptable(rows, i);
      if Acceptable(rows) {
        PrefixIsAcceptable(rows, i + 1);
      }
      var account := Trim(rows[i].account);
      KnownName(rows, i);
      if account == [] {
        assert RefusedRow(rows, i, EmptyAccountName);
        return Err(EmptyAccountName);
      }
      var known := account in balances;
      balances := balances[account := rows[i].cents];
      if known {
        assert RefusedRow(rows, i, DuplicateAccount(account));
        return Err(DuplicateAccount(account));
      }
      if rows[i].cents >= 0 {
        if debits + rows[i].cents > I64_MAX {
          assert RefusedRow(rows, i, TotalOverflow);
          return Err(TotalOverflow);
        }
        debits := debits + rows[i].cents;
      } else {
        if -rows[i].cents > I64_MAX || credits + -rows[i].cents > I64_MAX {
          assert RefusedRow(rows, i, TotalOverflow);
          return Err(TotalOverflow);
        }
        credits := credits + -rows[i].cents;
      }
    }
    assert rows[..|rows|] == rows;
    return Ok(TrialBalance(balances, debits, credits));
  }

  // ---------------------------------------------------------------------
  // Comparing

  datatype Kind = Missing | Extra | Mismatched | Equal

  function KindOf(reference: map<string, int>, actual: map<string, int>, account: string): Kind {
    if account !in actual then Missing
    else if account !in reference then Extra
    else if actual[account] != reference[account] then Mismatched
    else Equal
  }

  /** By how much the actual balance exceeds the reference, an account that is not there counting as zero. */
  function VarianceOf(reference: map<string, int>, actual: map<string, int>, account: string): int {
    (if account in actual then actual[account] else 0) - (if account in reference then reference[account] else 0)
  }

  /** The variances of one kind among these accounts, in their order. */
  function Listed(names: seq<string>, kind: Kind, reference: map<string, int>, actual: map<string, int>): seq<Variance>
  {
    if names == [] then []
    else
      var last := names[|names| - 1];
      Listed(names[..|names| - 1], kind, reference, actual)
      + (if KindOf(reference, actual, last) == kind then [Variance(last, VarianceOf(reference, actual, last))] else [])
  }

  function Larger(max: nat, variance: int): nat {
    if Abs(variance) > max then Abs(variance) else max
  }

  /** The greatest size of a variance among these accounts. */
  function Greatest(names: seq<string>, reference: map<string, int>, actual: map<string, int>): nat {
    if names == [] then 0
    else
      Larger(Greatest(names[..|names| - 1], reference, actual), VarianceOf(reference, actual, names[|names| - 1]))
  }

  lemma NextName(names: seq<string>, i: nat, kind: Kind, reference: map<string, int>, actual: map<string, int>)
    requires i < |names|
    ensures Listed(names[..i + 1], kind, reference, actual) == Listed(names[..i], kind, reference, actual)
      + (if KindOf(reference, actual, names[i]) == kind
         then [Variance(names[i], VarianceOf(reference, actual, names[i]))] else [])
    ensures Greatest(names[..i + 1], reference, actual)
      == Larger(Greatest(names[..i], reference, actual), VarianceOf(reference, actual, names[i]))
  {
    assert names[..i + 1][..i] == names[..i];
  }

  lemma NextBehind(before: seq<string>, names: seq<string>, i: nat,
      reference: map<string, int>, actual: map<string, int>)
    requires i < |names|
    ensures Greatest(before + names[..i + 1], reference, actual)
      == Larger(Greatest(before + names[..i], reference, actual), VarianceOf(reference, actual, names[i]))
  {
    var all := before + names;
    assert all[..|before| + i] == before + names[..i] && all[..|before| + i + 1] == before + names[..i + 1];
    NextName(all, |before| + i, Extra, reference, actual);
  }

  lemma {:induction false} GreatestBounds(names: seq<string>, reference: map<string, int>, actual: map<string, int>,
      account: string)
    requires account in names
    ensures Abs(VarianceOf(reference, actual, account)) <= Greatest(names, reference, actual)
  {
    var n := |names| - 1;
    assert names == names[..n] + [names[n]];
    if account in names[..n] {
      GreatestBounds(names[..n], reference, actual, account);
    }
  }

  lemma {:induction false} GreatestIsReached(names: seq<string>, reference: map<string, int>, actual: map<string, int>)
    ensures Greatest(names, reference, actual) == 0
      || exists a :: a in names && Abs(VarianceOf(reference, actual, a)) == Greatest(names, reference, actual)
  {
    if names != [] {
      var n := |names| - 1;
      GreatestIsReached(names[..n], reference, actual);
      assert names[n] in names;
    }
  }

  /** The accounts of the reference first: what is missing and what differs. */
  method CompareReference(names: seq<string>, reference: map<string, int>, actual: map<string, int>)
    returns (missing: seq<Variance>, mismatched: seq<Variance>, max: nat)
    requires forall name :: name in names ==> name in reference
    ensures missing == Listed(names, Missing, reference, actual)
    ensures mismatched == Listed(names, Mismatched, reference, actual)
    ensures max == Greatest(names, reference, actual)
  {
    missing, mismatched, max := [], [], 0;
    for i := 0 to |names|
      invariant missing == Listed(names[..i], Missing, reference, actual)
      invariant mismatched == Listed(names[..i], Mismatched, reference, actual)
      invariant max == Greatest(names[..i], reference, actual)
    {
      NextName(names, i, Missing, reference, actual);
      NextName(names, i, Mismatched, reference, actual);
      var account := names[i];
      if account !in actual {
        var variance := -reference[account];
        max := Larger(max, variance);
        missing := missing + [Variance(account, variance)];
      } else if actual[account] != reference[account] {
        var variance := actual[account] - reference[account];
        max := Larger(max, variance);
        mismatched := mismatched + [Variance(account, variance)];
      }
    }
    assert names[..|names|] == names;
  }

  /** Then the accounts only the actual balance has. */
  method CompareExtra(names: seq<string>, reference: map<string, int>, actual: map<string, int>,
    ghost before: seq<string>, maxBefore: nat)
    returns (extra: seq<Variance>, max: nat)
    requires forall name :: name in names ==> name in actual
    requires forall name :: name in reference ==> name in before
    requires maxBefore == Greatest(before, reference, actual)
    ensures extra == Listed(names, Extra, reference, actual)
    ensures max == Greatest(before + names, reference, actual)
  {
    extra, max := [], maxBefore;
    assert before + [] == before;
    for i := 0 to |names|
      invariant extra == Listed(names[..i], Extra, reference, actual)
      invariant max == Greatest(before + names[..i], reference, actual)
    {
      NextName(names, i, Extra, reference, actual);
      NextBehind(before, names, i, reference, actual);
      var account := names[i];
      if account !in reference {
        var variance := actual[account];
        max := Larger(max, variance);
        extra := extra + [Variance(account, variance)];
      } else {
        GreatestBounds(before + names[..i], reference, actual, account);
      }
    }
    assert names[..|names|] == names;
  }

  /** The report on two trial balances; accounts are walked through in the order of their names. */
  ghost predicate Reports(r: Comparison, reference: TrialBalance, actual: TrialBalance) {
    var referenceNames, actualNames := Ordered(reference.balances.Keys), Ordered(actual.balances.Keys);
    && r.missing == Listed(referenceNames, Missing, reference.balances, actual.balances)
    && r.mismatched == Listed(referenceNames, Mismatched, reference.balances, actual.balances)
    && r.extra == Listed(actualNames, Extra, reference.balances, actual.balances)
    && r.maxVariance == Greatest(referenceNames + actualNames, reference.balances, actual.balances)
    && r.referenceDebits == reference.debits && r.referenceCredits == reference.credits
    && r.actualDebits == actual.debits && r.actualCredits == actual.credits
    && r.debitVariance == actual.debits - reference.debits
    && r.creditVariance == actual.credits - reference.credits
    && r.netVariance == (actual.debits - actual.credits) - (reference.debits - reference.credits)
  }

  method ReconcileTrialBalances(reference: TrialBalance, actual: TrialBalance) returns (r: Comparison)
    ensures Reports(r, reference, actual)
  {
    var referenceNames := InOrder(reference.balances.Keys);
    var actualNames := InOrder(actual.balances.Keys);
    var missing, mismatched, max := CompareReference(referenceNames, reference.balances, actual.balances);
    var extra, maxAll := CompareExtra(actualNames, reference.balances, actual.balances, referenceNames, max);
    r := Comparison(
      missing, extra, mismatched,
      reference.debits, reference.credits, actual.debits, actual.credits,
      actual.debits - reference.debits,
      actual.credits - reference.credits,
      (actual.debits - actual.credits) - (reference.debits - reference.credits),
      maxAll);
  }

  /** A list holds exactly the accounts of its kind, each with its variance. */
  lemma {:induction false} ListedMembers(names: seq<string>, kind: Kind, reference: map<string, int>,
      actual: map<string, int>, v: Variance)
    ensures v in Listed(names, kind, reference, actual) <==>
      v.account in names && KindOf(reference, actual, v.account) == kind
        && v.cents == VarianceOf(reference, actual, v.account)
  {
    if names != [] {
      var n := |names| - 1;
      assert names == names[..n] + [names[n]];
      ListedMembers(names[..n], kind, reference, actual, v);
    }
  }

  /** The names of a list ascend. */
  lemma {:induction false} ListedAscends(names: seq<string>, kind: Kind, reference: map<string, int>,
      actual: map<string, int>, i: nat, j: nat)
    requires forall k, l :: 0 <= k < l < |names| ==> Below(names[k], names[l])
    requires i < j < |Listed(names, kind, reference, actual)|
    ensures var list := Listed(names, kind, reference, actual); Below(list[i].account, list[j].account)
  {
    var n := |names| - 1;
    var list, before := Listed(names, kind, reference, actual), Listed(names[..n], kind, reference, actual);
    if j < |before| {
      ListedAscends(names[..n], kind, reference, actual, i, j);
    } else {
      ListedMembers(names[..n], kind, reference, actual, before[i]);
    }
  }

  // ---------------------------------------------------------------------
  // When a comparison passes

  lemma {:induction false} TakeRowOut(rows: seq<Row>, i: nat)
    requires i < |rows|
    ensures Debits(rows) == Debits(rows[..i] + rows[i + 1..]) + Debit(rows[i].cents)
    ensures Credits(rows) == Credits(rows[..i] + rows[i + 1..]) + Credit(rows[i].cents)
    decreases |rows|
  {
    var n := |rows| - 1;
    if i == n {
      assert rows[..i] + rows[i + 1..] == rows[..n];
    } else {
      var others := rows[..i] + rows[i + 1..];
      assert rows[..n][..i] + rows[..n][i + 1..] == others[..n - 1];
      assert others[n - 1] == rows[n];
      TakeRowOut(rows[..n], i);
    }
  }

  lemma LastHasBalance(rows: seq<Row>)
    ensures rows != [] ==> Trim(rows[|rows| - 1].account) in Balances(rows)
  {
  }

  /** The totals are a matter of the balances alone. */
  lemma {:induction false} TotalsFollowBalances(xs: seq<Row>, ys: seq<Row>)
    requires Acceptable(xs) && Acceptable(ys) && Balances(xs) == Balances(ys)
    ensures Debits(xs) == Debits(ys) && Credits(xs) == Credits(ys)
    decreases |xs|
  {
    if xs == [] {
      LastHasBalance(ys);
    } else {
      var n := |xs| - 1;
      var name := Trim(xs[n].account);
      NamesAreKeys(ys, name);
      var i :| 0 <= i < |ys| && Trim(ys[i].account) == name;
      var others := ys[..i] + ys[i + 1..];
      TakeRowOut(ys, i);
      BalanceAt(ys, i);
      BalanceAt(xs, n);
      WithoutRow(ys, i);
      WithoutRow(xs, n);
      assert xs[..n] + xs[n + 1..] == xs[..n];
      TotalsFollowBalances(xs[..n], others);
    }
  }

  /** Among distinct names, a row's balance is the account's. */
  lemma {:induction false} BalanceAt(rows: seq<Row>, i: nat)
    requires Acceptable(rows) && i < |rows|
    ensures Trim(rows[i].account) in Balances(rows) && Balances(rows)[Trim(rows[i].account)] == rows[i].cents
    decreases |rows|
  {
    var n := |rows| - 1;
    if i < n {
      PrefixIsAcceptable(rows, n);
      BalanceAt(rows[..n], i);
      assert rows[..n][i] == rows[i];
    }
  }

  /** Dropping a row drops its account and nothing else. */
  lemma WithoutRow(rows: seq<Row>, i: nat)
    requires Acceptable(rows) && i < |rows|
    ensures var others := rows[..i] + rows[i + 1..];
      Acceptable(others) && Balances(others) == Balances(rows) - {Trim(rows[i].account)}
  {
    var others := rows[..i] + rows[i + 1..];
    OthersAcceptable(rows, i);
    var less := Balances(rows) - {Trim(rows[i].account)};
    forall a ensures (a in Balances(others) <==> a in less) && (a in less ==> Balances(others)[a] == less[a]) {
      OtherBalance(rows, i, a);
    }
  }

  /** Where the other rows come from, and where they go. */
  lemma OtherRow(rows: seq<Row>, i: nat, k: nat)
    requires i < |rows| && k < |rows|
    ensures var others := rows[..i] + rows[i + 1..];
      && (k < |others| ==> others[k] == rows[if k < i then k else k + 1])
      && (k != i ==> rows[k] == others[if k < i then k else k - 1])
  {
  }

  lemma OthersAcceptable(rows: seq<Row>, i: nat)
    requires Acceptable(rows) && i < |rows|
    ensures Acceptable(rows[..i] + rows[i + 1..])
  {
    var others := rows[..i] + rows[i + 1..];
    TakeRowOut(rows, i);
    forall k | 0 <= k < |others| ensures Trim(others[k].account) != [] {
      OtherRow(rows, i, k);
    }
    forall j, k | 0 <= j < k < |others| ensures Trim(others[j].account) != Trim(others[k].account) {
      OtherRow(rows, i, j);
      OtherRow(rows, i, k);
    }
  }

  lemma OtherBalance(rows: seq<Row>, i: nat, a: string)
    requires Acceptable(rows) && i < |rows|
    ensures var others, name := rows[..i] + rows[i + 1..], Trim(rows[i].account);
      && (a in Balances(others) <==> a in Balances(rows) && a != name)
      && (a in Balances(others) ==> Balances(others)[a] == Balances(rows)[a])
  {
    var others := rows[..i] + rows[i + 1..];
    OthersAcceptable(rows, i);
    NamesAreKeys(rows, a);
    NamesAreKeys(others, a);
    if a in Balances(rows) {
      var k :| 0 <= k < |rows| && Trim(rows[k].account) == a;
      OtherRow(rows, i, k);
      BalanceAt(rows, k);
      if k != i {
        BalanceAt(others, if k < i then k else k - 1);
      }
    }
    if a in Balances(others) {
      var j :| 0 <= j < |others| && Trim(others[j].account) == a;
      OtherRow(rows, i, j);
    }
  }

  lemma NothingListed(names: seq<string>, kind: Kind, reference: map<string, int>, actual: map<string, int>)
    ensures Listed(names, kind, reference, actual) == [] <==>
      forall a :: a in names ==> KindOf(reference, actual, a) != kind
  {
    var list := Listed(names, kind, reference, actual);
    if list != [] {
      ListedMembers(names, kind, reference, actual, list[0]);
    }
    forall a | a in names && KindOf(reference, actual, a) == kind ensures list != [] {
      ListedMembers(names, kind, reference, actual, Variance(a, VarianceOf(reference, actual, a)));
    }
  }

  /** Nothing is listed exactly when the balances are the same. */
  lemma NothingDiffers(reference: map<string, int>, actual: map<string, int>)
    ensures (Listed(Ordered(reference.Keys), Missing, reference, actual) == []
             && Listed(Ordered(actual.Keys), Extra, reference, actual) == []
             && Listed(Ordered(reference.Keys), Mismatched, reference, actual) == []) <==> reference == actual
  {
    NothingListed(Ordered(reference.Keys), Missing, reference, actual);
    NothingListed(Ordered(actual.Keys), Extra, reference, actual);
    NothingListed(Ordered(reference.Keys), Mismatched, reference, actual);
    if forall a :: a in reference ==> KindOf(reference, actual, a) == Equal {
      if forall a :: a in actual ==> KindOf(reference, actual, a) != Extra {
        assert reference.Keys == actual.Keys;
      }
    }
  }

  lemma GreatestOfEqual(names: seq<string>, balances: map<string, int>)
    ensures Greatest(names, balances, balances) == 0
  {
    GreatestIsReached(names, balances, balances);
  }

  /**
    A comparison of two collected trial balances passes exactly when both have the same accounts with the same
    balances and their debits equal their credits. The other totals it checks follow.
   */
  lemma PassesExactly(xs: seq<Row>, ys: seq<Row>, reference: TrialBalance, actual: TrialBalance, r: Comparison)
    requires Acceptable(xs) && reference == TrialBalance(Balances(xs), Debits(xs), Credits(xs))
    requires Acceptable(ys) && actual == TrialBalance(Balances(ys), Debits(ys), Credits(ys))
    requires Reports(r, reference, actual)
    ensures r.Passes() <==> reference.balances == actual.balances && reference.debits == reference.credits
  {
    NothingDiffers(reference.balances, actual.balances);
    if reference.balances == actual.balances {
      TotalsFollowBalances(xs, ys);
      GreatestOfEqual(Ordered(reference.balances.Keys) + Ordered(actual.balances.Keys), reference.balances);
    }
  }

  /** The variances of the totals are those of the rows' cents, by sign and altogether. */
  lemma VariancesOfTotals(xs: seq<Row>, ys: seq<Row>, reference: TrialBalance, actual: TrialBalance, r: Comparison)
    requires reference == TrialBalance(Balances(xs), Debits(xs), Credits(xs))
    requires actual == TrialBalance(Balances(ys), Debits(ys), Credits(ys))
    requires Reports(r, reference, actual)
    ensures r.debitVariance == r.actualDebits - r.referenceDebits
    ensures r.creditVariance == r.actualCredits - r.referenceCredits
    ensures r.debitVariance + r.creditVariance == Turnover(ys) - Turnover(xs)
    ensures r.netVariance == r.debitVariance - r.creditVariance == NetCents(ys) - NetCents(xs)
  {
    TotalsBySign(xs);
    TotalsBySign(ys);
  }

  /**
    The lists ascend by name, hold every account whose balances differ or that only one side has, each once with its
    variance, and the reported greatest variance is one of theirs or zero.
   */
  lemma VariancesAreDifferences(reference: TrialBalance, actual: TrialBalance, r: Comparison, v: Variance)
    requires Reports(r, reference, actual)
    ensures var was, now, a := reference.balances, actual.balances, v.account;
      && (v in r.missing <==> a in was && a !in now && v.cents == -was[a])
      && (v in r.extra <==> a in now && a !in was && v.cents == now[a])
      && (v in r.mismatched <==> a in was && a in now && was[a] != now[a] && v.cents == now[a] - was[a])
    ensures var max: int := r.maxVariance;
      && (v in r.missing || v in r.extra || v in r.mismatched ==> -max <= v.cents <= max)
      && (max == 0 || exists w ::
            (w in r.missing || w in r.extra || w in r.mismatched) && (w.cents == max || w.cents == -max))
  {
    var referenceNames, actualNames := Ordered(reference.balances.Keys), Ordered(actual.balances.Keys);
    ListedMembers(referenceNames, Missing, reference.balances, actual.balances, v);
    ListedMembers(referenceNames, Mismatched, reference.balances, actual.balances, v);
    ListedMembers(actualNames, Extra, reference.balances, actual.balances, v);
    if v.account in referenceNames + actualNames {
      GreatestBounds(referenceNames + actualNames, reference.balances, actual.balances, v.account);
    }
    if r.maxVariance != 0 {
      GreatestIsListed(reference, actual, r);
    }
  }

  lemma GreatestIsListed(reference: TrialBalance, actual: TrialBalance, r: Comparison)
    requires Reports(r, reference, actual) && r.maxVariance != 0
    ensures exists w :: (w in r.missing || w in r.extra || w in r.mismatched) && Abs(w.cents) == r.maxVariance
  {
    var was, now := reference.balances, actual.balances;
    var names := Ordered(was.Keys) + Ordered(now.Keys);
    GreatestIsReached(names, was, now);
    var a :| a in names && Abs(VarianceOf(was, now, a)) == Greatest(names, was, now);
    var w := Variance(a, VarianceOf(was, now, a));
    ListedMembers(Ordered(was.Keys), Missing, was, now, w);
    ListedMembers(Ordered(was.Keys), Mismatched, was, now, w);
    ListedMembers(Ordered(now.Keys), Extra, was, now, w);
  }

  lemma VariancesAscend(reference: TrialBalance, actual: TrialBalance, r: Comparison, list: seq<Variance>, i: nat,
      j: nat)
    requires Reports(r, reference, actual) && list in {r.missing, r.extra, r.mismatched} && i < j < |list|
    ensures Below(list[i].account, list[j].account)
  {
    OrderAscends(reference.balances.Keys);
    OrderAscends(actual.balances.Keys);
    var names := if list == r.extra then Ordered(actual.balances.Keys) else Ordered(reference.balances.Keys);
    var kind := if list == r.extra then Extra else if list == r.missing then Missing else Mismatched;
    ListedAscends(names, kind, reference.balances, actual.balances, i, j);
  }

  lemma OrderAscends(names: set<string>)
    ensures forall i, j :: 0 <= i < j < |Ordered(names)| ==> Below(Ordered(names)[i], Ordered(names)[j])
  {
    forall i, j | 0 <= i < j < |Ordered(names)| ensures Below(Ordered(names)[i], Ordered(names)[j]) {
      OrderedAscends(names, i, j);
    }
  }
}
