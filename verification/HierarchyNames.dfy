/** Hierarchy-qualified account names and numbered display labels. */
module HierarchyNames {
  import opened Sequences
  import opened Outcomes
  import opened SortedMaps
  import opened Accounting
  import opened Hierarchy

  datatype NameError = ConflictingAccountMetadata | AccountHierarchyCycle | MissingParentAccount

  // ---------------------------------------------------------------------
  // Gathering the accounts of a report

  /** Two rows with one identifier are the same account. */
  ghost predicate Consistent(accounts: seq<Account>) {
    forall i, j :: 0 <= i < |accounts| && 0 <= j < |accounts| && accounts[i].id == accounts[j].id ==>
      accounts[i] == accounts[j]
  }

  /** The accounts by identifier. */
  function ById(accounts: seq<Account>): Accounts {
    if accounts == [] then []
    else
      var last := accounts[|accounts| - 1];
      Insert(ById(accounts[..|accounts| - 1]), last.id, last)
  }

  lemma {:induction false} ByIdHolds(accounts: seq<Account>, e: Entry<Account>)
    requires Consistent(accounts)
    ensures WellKeyed(ById(accounts))
    ensures e in ById(accounts) <==> e.key == e.value.id && e.value in accounts
  {
    if accounts != [] {
      var n := |accounts| - 1;
      var before, last := ById(accounts[..n]), accounts[n];
      ByIdHolds(accounts[..n], e);
      assert accounts == accounts[..n] + [last];
      InsertAscending(before, last.id, last);
      InsertMembers(before, last.id, last, e);
      var after := Insert(before, last.id, last);
      forall i | 0 <= i < |after|
        ensures after[i].value.id == after[i].key
      {
        assert after[i] in after;
        InsertMembers(before, last.id, last, after[i]);
      }
    }
  }

  method Gather(accounts: seq<Account>) returns (r: Result<Accounts, NameError>)
    ensures r.Ok? <==> Consistent(accounts)
    ensures r.Ok? ==> r.value == ById(accounts) && WellKeyed(r.value)
  {
    var byId: Accounts := [];
    for i := 0 to |accounts|
      invariant Consistent(accounts[..i])
      invariant byId == ById(accounts[..i]) && WellKeyed(byId)
    {
      var account := accounts[i];
      var existing := Lookup(byId, account.id);
      if existing.Some? && existing.value != account {
        OtherUnderSameId(accounts, i, byId);
        return Err(ConflictingAccountMetadata);
      }
      NewOrSame(accounts, i, byId);
      byId := Insert(byId, account.id, account);
    }
    assert accounts[..|accounts|] == accounts;
    return Ok(byId);
  }

  lemma NewOrSame(accounts: seq<Account>, i: nat, byId: Accounts)
    requires i < |accounts| && Consistent(accounts[..i]) && byId == ById(accounts[..i]) && WellKeyed(byId)
    requires Lookup(byId, accounts[i].id).None? || Lookup(byId, accounts[i].id) == Some(accounts[i])
    ensures Consistent(accounts[..i + 1])
    ensures ById(accounts[..i + 1]) == Insert(byId, accounts[i].id, accounts[i]) && WellKeyed(ById(accounts[..i + 1]))
  {
    SameUnderSameId(accounts, i, byId);
    ByIdHolds(accounts[..i + 1], Entry(accounts[i].id, accounts[i]));
    assert accounts[..i + 1][..i] == accounts[..i];
  }

  lemma OtherUnderSameId(accounts: seq<Account>, i: nat, byId: Accounts)
    requires i < |accounts| && Consistent(accounts[..i]) && byId == ById(accounts[..i]) && WellKeyed(byId)
    requires Lookup(byId, accounts[i].id).Some? && Lookup(byId, accounts[i].id).value != accounts[i]
    ensures !Consistent(accounts)
  {
    var k :| 0 <= k < |byId| && byId[k].key == accounts[i].id;
    LookupAt(byId, k);
    ByIdHolds(accounts[..i], byId[k]);
    assert byId[k] in byId;
    var j :| 0 <= j < i && accounts[..i][j] == byId[k].value;
    assert accounts[j].id == accounts[i].id;
  }

  lemma SameUnderSameId(accounts: seq<Account>, i: nat, byId: Accounts)
    requires i < |accounts| && Consistent(accounts[..i]) && byId == ById(accounts[..i]) && WellKeyed(byId)
    requires Lookup(byId, accounts[i].id).None? || Lookup(byId, accounts[i].id) == Some(accounts[i])
    ensures Consistent(accounts[..i + 1])
  {
    forall j | 0 <= j < i && accounts[j].id == accounts[i].id
      ensures accounts[j] == accounts[i]
    {
      var e := Entry(accounts[j].id, accounts[j]);
      assert accounts[..i][j] == accounts[j];
      ByIdHolds(accounts[..i], e);
      var k :| 0 <= k < |byId| && byId[k] == e;
      LookupAt(byId, k);
    }
  }

  // ---------------------------------------------------------------------
  // Full names

  ghost function NameAt(accounts: Accounts, id: AccountId, k: nat): string {
    match Up(accounts, id, k)
    case None => ""
    case Some(x) => if HasKey(accounts, x) then Lookup(accounts, x).value.name else ""
  }

  /** The names met on the way up, leaf first. */
  ghost function TrailNames(accounts: Accounts, id: AccountId, n: nat): (names: seq<string>)
    ensures |names| == n
  {
    if n == 0 then [] else TrailNames(accounts, id, n - 1) + [NameAt(accounts, id, n - 1)]
  }

  function Joined(parts: seq<string>): string {
    if parts == [] then ""
    else if |parts| == 1 then parts[0]
    else parts[0] + ":" + Joined(parts[1..])
  }

  /** How far up the root is. */
  ghost function Depth(accounts: Accounts, id: AccountId): (n: nat)
    requires EndsAtRoot(accounts, id)
    ensures RootAt(accounts, id, n)
  {
    var n: nat :| RootAt(accounts, id, n);
    n
  }

  lemma RootOnce(accounts: Accounts, id: AccountId, m: nat)
    requires RootAt(accounts, id, m)
    ensures EndsAtRoot(accounts, id) && Depth(accounts, id) == m
  {
    var n := Depth(accounts, id);
    if m < n {
      UpEarlier(accounts, id, m, n);
    } else if n < m {
      UpEarlier(accounts, id, n, m);
    }
  }

  /** The whole chain, root first. */
  ghost function Qualified(accounts: Accounts, id: AccountId): string
    requires EndsAtRoot(accounts, id)
  {
    Joined(Reversed(TrailNames(accounts, id, Depth(accounts, id) + 1)))
  }

  lemma {:induction false} JoinedPush(parts: seq<string>, last: string)
    ensures Joined([last]) == last
    ensures parts != [] ==> Joined(parts + [last]) == Joined(parts) + ":" + last
    decreases |parts|
  {
    if |parts| == 1 {
      assert (parts + [last])[1..] == [last];
    } else if parts != [] {
      assert (parts + [last])[1..] == parts[1..] + [last];
      JoinedPush(parts[1..], last);
      Regroup(parts[0] + ":", Joined(parts[1..]), ":", last);
    }
  }

  lemma {:induction false} TrailBegins(accounts: Accounts, id: AccountId, parent: AccountId, n: nat)
    requires ParentOf(accounts, id) == Some(parent)
    ensures TrailNames(accounts, id, n + 1) == [NameAt(accounts, id, 0)] + TrailNames(accounts, parent, n)
  {
    if n > 0 {
      TrailBegins(accounts, id, parent, n - 1);
      UpAdd(accounts, id, 1, n - 1);
      assert Up(accounts, id, 1) == Some(parent);
      assert 1 + (n - 1) == n;
    }
  }

  lemma ParentsRoot(accounts: Accounts, id: AccountId, parent: AccountId)
    requires EndsAtRoot(accounts, id) && ParentOf(accounts, id) == Some(parent)
    ensures EndsAtRoot(accounts, parent) && Depth(accounts, id) == Depth(accounts, parent) + 1
  {
    var n := Depth(accounts, id);
    assert n > 0;
    assert Up(accounts, id, 1) == Some(parent);
    UpAdd(accounts, id, 1, n - 1);
    assert 1 + (n - 1) == n;
    RootOnce(accounts, parent, n - 1);
  }

  /** The full name of a root is its name. */
  lemma RootName(accounts: Accounts, id: AccountId)
    requires HasKey(accounts, id) && ParentOf(accounts, id).None?
    ensures EndsAtRoot(accounts, id) && Qualified(accounts, id) == Lookup(accounts, id).value.name
  {
    var name := Lookup(accounts, id).value.name;
    RootIs(accounts, id, 0);
    assert TrailNames(accounts, id, 1) == [name];
    BeginsReversed(name, []);
    assert Reversed([name]) == [name];
  }

  /** That of any other account is its parent's, a colon, and its name. */
  lemma ChildName(accounts: Accounts, id: AccountId, parent: AccountId)
    requires HasKey(accounts, id) && EndsAtRoot(accounts, id) && ParentOf(accounts, id) == Some(parent)
    ensures EndsAtRoot(accounts, parent)
    ensures Qualified(accounts, id) == Qualified(accounts, parent) + ":" + Lookup(accounts, id).value.name
  {
    ParentsRoot(accounts, id, parent);
    OwnNameFirst(accounts, id, parent, Depth(accounts, parent) + 1);
    BehindParent(Lookup(accounts, id).value.name, TrailNames(accounts, parent, Depth(accounts, parent) + 1));
  }

  lemma OwnNameFirst(accounts: Accounts, id: AccountId, parent: AccountId, n: nat)
    requires HasKey(accounts, id) && ParentOf(accounts, id) == Some(parent)
    ensures TrailNames(accounts, id, n + 1) == [Lookup(accounts, id).value.name] + TrailNames(accounts, parent, n)
  {
    TrailBegins(accounts, id, parent, n);
  }

  lemma BehindParent(name: string, above: seq<string>)
    requires above != []
    ensures Joined(Reversed([name] + above)) == Joined(Reversed(above)) + ":" + name
  {
    BeginsReversed(name, above);
    JoinedPush(Reversed(above), name);
  }

  lemma BeginsReversed(first: string, rest: seq<string>)
    ensures Reversed([first] + rest) == Reversed(rest) + [first]
  {
    assert ([first] + rest)[1..] == rest;
  }

  method FullName(accounts: Accounts, id: AccountId) returns (r: Result<string, NameError>)
    requires WellKeyed(accounts) && HasKey(accounts, id)
    ensures r.Ok? <==> EndsAtRoot(accounts, id)
    ensures r.Ok? ==> r.value == Qualified(accounts, id)
    ensures r == Err(AccountHierarchyCycle) <==> Endless(accounts, id)
    ensures r == Err(MissingParentAccount) <==> RunsOff(accounts, id)
  {
    var current := id;
    var seen: set<AccountId> := {};
    var components: seq<string> := [];
    ghost var n: nat := 0;
    while true
      invariant Up(accounts, id, n) == Some(current)
      invariant components == TrailNames(accounts, id, n)
      invariant seen == Passed(accounts, id, n)
      decreases Ids(accounts) - seen
    {
      if current in seen {
        PassedAgain(accounts, id, n);
        EndlessExcludes(accounts, id);
        return Err(AccountHierarchyCycle);
      }
      if !HasKey(accounts, current) {
        MissingExcludes(accounts, id, n);
        return Err(MissingParentAccount);
      }
      var account := Lookup(accounts, current).value;
      components := components + [account.name];
      if account.parent.None? {
        RootIs(accounts, id, n);
        return Ok(Joined(Reversed(components)));
      }
      PassedInside(accounts, id, n + 1);
      seen := seen + {current};
      current := account.parent.value;
      n := n + 1;
    }
  }

  lemma MissingExcludes(accounts: Accounts, id: AccountId, n: nat)
    requires MissingAt(accounts, id, n)
    ensures RunsOff(accounts, id) && !Endless(accounts, id) && !EndsAtRoot(accounts, id)
  {
    MissingExcludesEndless(accounts, id, n);
    MissingExcludesRoot(accounts, id, n);
  }

  lemma RootIs(accounts: Accounts, id: AccountId, n: nat)
    requires RootAt(accounts, id, n)
    ensures EndsAtRoot(accounts, id) && Qualified(accounts, id) == Joined(Reversed(TrailNames(accounts, id, n + 1)))
    ensures !Endless(accounts, id) && !RunsOff(accounts, id)
  {
    RootOnce(accounts, id, n);
    RootExcludes(accounts, id, n);
  }

  lemma EndlessExcludes(accounts: Accounts, id: AccountId)
    requires Endless(accounts, id)
    ensures !EndsAtRoot(accounts, id) && !RunsOff(accounts, id)
  {
    forall n: nat
      ensures !RootAt(accounts, id, n) && !MissingAt(accounts, id, n)
    {
      assert Up(accounts, id, n + 1).Some?;
    }
  }

  lemma MissingExcludesRoot(accounts: Accounts, id: AccountId, n: nat)
    requires MissingAt(accounts, id, n)
    ensures !EndsAtRoot(accounts, id)
  {
    forall m: nat
      ensures !RootAt(accounts, id, m)
    {
      if RootAt(accounts, id, m) {
        RootExcludes(accounts, id, m);
      }
    }
  }

  /** Texts found for the accounts one by one, as a map from identifiers. */
  function Keyed(accounts: Accounts, texts: seq<string>): (m: map<AccountId, string>)
    requires |texts| <= |accounts|
    ensures forall id :: id in m <==> HasKey(accounts[..|texts|], id)
    ensures WellKeyed(accounts) ==> forall i :: 0 <= i < |texts| ==>
      accounts[i].key in m && m[accounts[i].key] == texts[i]
  {
    if texts == [] then map[]
    else
      var n := |texts| - 1;
      assert forall i :: 0 <= i < n ==> texts[..n][i] == texts[i] && accounts[..n][i] == accounts[..|texts|][i];
      assert forall id :: HasKey(accounts[..|texts|], id) <==> HasKey(accounts[..n], id) || id == accounts[n].key by {
        KeysPush(accounts, n);
      }
      Keyed(accounts, texts[..n])[accounts[n].key := texts[n]]
  }

  lemma KeysPush(accounts: Accounts, n: nat)
    requires n < |accounts|
    ensures forall id :: HasKey(accounts[..n + 1], id) <==> HasKey(accounts[..n], id) || id == accounts[n].key
  {
    assert accounts[..n + 1] == accounts[..n] + [accounts[n]];
    forall id
      ensures HasKey(accounts[..n + 1], id) <==> HasKey(accounts[..n], id) || id == accounts[n].key
    {
      assert accounts[..n + 1][n] == accounts[n];
      if HasKey(accounts[..n], id) {
        var i :| 0 <= i < n && accounts[..n][i].key == id;
        assert accounts[..n + 1][i].key == id;
      }
      if HasKey(accounts[..n + 1], id) {
        var i :| 0 <= i < n + 1 && accounts[..n + 1][i].key == id;
        assert i < n ==> accounts[..n][i].key == id;
      }
    }
  }

  ghost predicate AllEndAtRoot(accounts: Accounts) {
    forall i :: 0 <= i < |accounts| ==> EndsAtRoot(accounts, accounts[i].key)
  }

  /** Succeeds exactly when every chain ends at a root, and then spells every chain. */
  method FullNames(accounts: Accounts) returns (r: Result<map<AccountId, string>, NameError>)
    requires WellKeyed(accounts)
    ensures r.Ok? <==> AllEndAtRoot(accounts)
    ensures r.Ok? ==> forall id :: id in r.value <==> HasKey(accounts, id)
    ensures r.Ok? ==> forall i :: 0 <= i < |accounts| ==>
      accounts[i].key in r.value && r.value[accounts[i].key] == Qualified(accounts, accounts[i].key)
  {
    var listed := FullNameList(accounts);
    if listed.Err? {
      return Err(listed.error);
    }
    assert accounts[..|accounts|] == accounts;
    return Ok(Keyed(accounts, listed.value));
  }

  method FullNameList(accounts: Accounts) returns (r: Result<seq<string>, NameError>)
    requires WellKeyed(accounts)
    ensures r.Ok? <==> AllEndAtRoot(accounts)
    ensures r.Ok? ==> |r.value| == |accounts|
    ensures r.Ok? ==> forall i :: 0 <= i < |accounts| ==> r.value[i] == Qualified(accounts, accounts[i].key)
  {
    var names: seq<string> := [];
    for i := 0 to |accounts|
      invariant |names| == i
      invariant forall j :: 0 <= j < i ==>
        EndsAtRoot(accounts, accounts[j].key) && names[j] == Qualified(accounts, accounts[j].key)
    {
      assert HasKey(accounts, accounts[i].key);
      var name := FullName(accounts, accounts[i].key);
      if name.Err? {
        return Err(name.error);
      }
      names := names + [name.value];
    }
    return Ok(names);
  }

  // ---------------------------------------------------------------------
  // Display labels

  ghost function NumberAt(accounts: Accounts, id: AccountId, k: nat): Option<string> {
    match Up(accounts, id, k)
    case None => None
    case Some(x) => if HasKey(accounts, x) then Lookup(accounts, x).value.number else None
  }

  /** The search for a number stops here: at the first numbered account, or at an unnumbered root. */
  ghost predicate StopsAt(accounts: Accounts, id: AccountId, n: nat) {
    && Up(accounts, id, n).Some? && HasKey(accounts, Up(accounts, id, n).value)
    && (NumberAt(accounts, id, n).Some? || ParentOf(accounts, Up(accounts, id, n).value).None?)
    && Unnumbered(accounts, id, n)
  }

  /** No account met on the first `n` steps has a number. */
  ghost predicate Unnumbered(accounts: Accounts, id: AccountId, n: nat) {
    n == 0 || (Unnumbered(accounts, id, n - 1) && NumberAt(accounts, id, n - 1).None?)
  }

  lemma {:induction false} UnnumberedAt(accounts: Accounts, id: AccountId, n: nat, k: nat)
    requires Unnumbered(accounts, id, n) && k < n
    ensures NumberAt(accounts, id, k).None?
  {
    if k < n - 1 {
      UnnumberedAt(accounts, id, n - 1, k);
    }
  }

  lemma StopsOnce(accounts: Accounts, id: AccountId, m: nat, n: nat)
    requires StopsAt(accounts, id, m) && StopsAt(accounts, id, n)
    ensures m == n
  {
    if m < n {
      UpEarlier(accounts, id, m, n);
      UnnumberedAt(accounts, id, n, m);
    } else if n < m {
      UpEarlier(accounts, id, n, m);
      UnnumberedAt(accounts, id, m, n);
    }
  }

  ghost predicate SearchStops(accounts: Accounts, id: AccountId) {
    exists n: nat :: StopsAt(accounts, id, n)
  }

  /** A chain that ends at a root always has a place to stop. */
  lemma {:induction false} RootStops(accounts: Accounts, id: AccountId, n: nat, m: nat)
    requires RootAt(accounts, id, n) && m <= n
    requires Unnumbered(accounts, id, m)
    ensures SearchStops(accounts, id)
    decreases n - m
  {
    UpEarlier(accounts, id, m, n);
    if m == n || NumberAt(accounts, id, m).Some? {
      assert StopsAt(accounts, id, m);
    } else {
      RootStops(accounts, id, n, m + 1);
    }
  }

  /** The number, a middle dot between blanks, and the full name; the full name alone if there is no number. */
  function Label(number: Option<string>, fullName: string): (text: string)
    ensures |text| == |fullName| + (if number.Some? then |number.value| + 3 else 0)
    ensures text[|text| - |fullName|..] == fullName
    ensures number.Some? ==> text[..|number.value|] == number.value && text[|number.value| + 1] == '\U{B7}'
  {
    match number
    case Some(digits) => digits + " \U{B7} " + fullName
    case None => fullName
  }

  /** The number of the nearest numbered account at or above, if there is one. */
  ghost function InheritedNumber(accounts: Accounts, id: AccountId): Option<string>
    requires SearchStops(accounts, id)
  {
    var n: nat :| StopsAt(accounts, id, n);
    NumberAt(accounts, id, n)
  }

  /** On a chain without numbers so far, meeting an account again means the search never stops. */
  lemma RepeatNeverStops(accounts: Accounts, id: AccountId, i: nat, j: nat)
    requires i < j && Up(accounts, id, i).Some? && Up(accounts, id, i) == Up(accounts, id, j)
    requires Unnumbered(accounts, id, j)
    ensures !SearchStops(accounts, id)
  {
    NeverEnds(accounts, id, i, j);
    forall n: nat
      ensures !StopsAt(accounts, id, n)
    {
      RepeatStays(accounts, id, i, j, n);
      var k: nat :| k < j && Up(accounts, id, n) == Up(accounts, id, k);
      UnnumberedAt(accounts, id, j, k);
      assert NumberAt(accounts, id, n) == NumberAt(accounts, id, k);
      assert Up(accounts, id, n + 1).Some?;
    }
  }

  lemma SeenNeverStops(accounts: Accounts, id: AccountId, n: nat)
    requires Up(accounts, id, n).Some? && Unnumbered(accounts, id, n)
    requires Up(accounts, id, n).value in Passed(accounts, id, n)
    ensures !SearchStops(accounts, id)
  {
    var k := PassedAt(accounts, id, n, Up(accounts, id, n).value);
    RepeatNeverStops(accounts, id, k, n);
  }

  lemma {:induction false} RepeatStays(accounts: Accounts, id: AccountId, i: nat, j: nat, n: nat)
    requires i < j && Up(accounts, id, i).Some? && Up(accounts, id, i) == Up(accounts, id, j)
    ensures exists k: nat :: k < j && Up(accounts, id, n) == Up(accounts, id, k)
    decreases n
  {
    if n < j {
    } else {
      var rest := n - j;
      UpAdd(accounts, id, j, rest);
      UpAdd(accounts, id, i, rest);
      assert j + rest == n;
      RepeatStays(accounts, id, i, j, i + rest);
    }
  }

  lemma MissingNeverStops(accounts: Accounts, id: AccountId, n: nat)
    requires MissingAt(accounts, id, n)
    requires Unnumbered(accounts, id, n)
    ensures !SearchStops(accounts, id)
  {
    forall m: nat
      ensures !StopsAt(accounts, id, m)
    {
      if m < n {
        UpEarlier(accounts, id, m, n);
        UnnumberedAt(accounts, id, n, m);
      } else if n < m && Up(accounts, id, m).Some? {
        UpEarlier(accounts, id, n, m);
      }
    }
  }

  lemma StopIs(accounts: Accounts, id: AccountId, n: nat)
    requires StopsAt(accounts, id, n)
    ensures SearchStops(accounts, id) && InheritedNumber(accounts, id) == NumberAt(accounts, id, n)
  {
    var m: nat :| StopsAt(accounts, id, m) && NumberAt(accounts, id, m) == InheritedNumber(accounts, id);
    StopsOnce(accounts, id, m, n);
  }

  /** An account with a number of its own, or without a parent, has the number it says. */
  lemma OwnNumber(accounts: Accounts, id: AccountId)
    requires HasKey(accounts, id)
    requires Lookup(accounts, id).value.number.Some? || Lookup(accounts, id).value.parent.None?
    ensures SearchStops(accounts, id) && InheritedNumber(accounts, id) == Lookup(accounts, id).value.number
  {
    StopIs(accounts, id, 0);
  }

  lemma {:induction false} UnnumberedAbove(accounts: Accounts, id: AccountId, parent: AccountId, n: nat)
    requires HasKey(accounts, id) && ParentOf(accounts, id) == Some(parent) && NumberAt(accounts, id, 0).None?
    ensures Up(accounts, id, n + 1) == Up(accounts, parent, n)
    ensures Unnumbered(accounts, id, n + 1) <==> Unnumbered(accounts, parent, n)
  {
    assert Up(accounts, id, 1) == Some(parent);
    UpAdd(accounts, id, 1, n);
    if n > 0 {
      UnnumberedAbove(accounts, id, parent, n - 1);
    }
  }

  /** Any other account has its parent's number, or none if the search does not stop. */
  lemma ParentsNumber(accounts: Accounts, id: AccountId, parent: AccountId)
    requires HasKey(accounts, id) && ParentOf(accounts, id) == Some(parent)
    requires Lookup(accounts, id).value.number.None?
    ensures SearchStops(accounts, id) <==> SearchStops(accounts, parent)
    ensures SearchStops(accounts, id) ==> InheritedNumber(accounts, id) == InheritedNumber(accounts, parent)
  {
    if SearchStops(accounts, id) {
      var n: nat :| StopsAt(accounts, id, n);
      StopsOnlyAbove(accounts, id, parent, n);
    }
    if SearchStops(accounts, parent) {
      var n: nat :| StopsAt(accounts, parent, n);
      StopsAlike(accounts, id, parent, n);
    }
  }

  lemma StopsOnlyAbove(accounts: Accounts, id: AccountId, parent: AccountId, n: nat)
    requires HasKey(accounts, id) && ParentOf(accounts, id) == Some(parent) && NumberAt(accounts, id, 0).None?
    requires StopsAt(accounts, id, n)
    ensures SearchStops(accounts, parent)
  {
    assert n > 0;
    StopsAbove(accounts, id, parent, n - 1);
  }

  lemma StopsAlike(accounts: Accounts, id: AccountId, parent: AccountId, n: nat)
    requires HasKey(accounts, id) && ParentOf(accounts, id) == Some(parent) && NumberAt(accounts, id, 0).None?
    requires StopsAt(accounts, parent, n)
    ensures SearchStops(accounts, id) && SearchStops(accounts, parent)
    ensures InheritedNumber(accounts, id) == InheritedNumber(accounts, parent)
  {
    StopsAbove(accounts, id, parent, n);
    StopIs(accounts, id, n + 1);
    StopIs(accounts, parent, n);
  }

  lemma StopsAbove(accounts: Accounts, id: AccountId, parent: AccountId, n: nat)
    requires HasKey(accounts, id) && ParentOf(accounts, id) == Some(parent) && NumberAt(accounts, id, 0).None?
    ensures StopsAt(accounts, id, n + 1) <==> StopsAt(accounts, parent, n)
    ensures NumberAt(accounts, id, n + 1) == NumberAt(accounts, parent, n)
  {
    UnnumberedAbove(accounts, id, parent, n);
  }

  /** After `n` steps the search stands at this account, and none before it had a number. */
  ghost predicate SearchAt(accounts: Accounts, id: AccountId, account: Account, n: nat) {
    && Up(accounts, id, n) == Some(account.id) && Lookup(accounts, account.id) == Some(account)
    && Unnumbered(accounts, id, n)
  }

  /** The number that is found, or why the search does not stop. */
  ghost predicate Outcome(accounts: Accounts, id: AccountId, r: Result<Option<string>, NameError>) {
    && (r.Ok? <==> SearchStops(accounts, id))
    && (r.Ok? ==> r.value == InheritedNumber(accounts, id))
    && (r == Err(AccountHierarchyCycle) ==> Endless(accounts, id))
    && (r == Err(MissingParentAccount) ==> RunsOff(accounts, id))
  }

  /** One turn of the search: the outcome, unless it goes on to the parent. */
  method SearchTurn(accounts: Accounts, ghost id: AccountId, account: Account, again: bool, ghost n: nat)
    returns (stopped: bool, r: Result<Option<string>, NameError>)
    requires SearchAt(accounts, id, account, n)
    requires again <==> account.id in Passed(accounts, id, n)
    ensures stopped ==> Outcome(accounts, id, r)
    ensures !stopped ==>
      !again && account.number.None? && account.parent.Some? && HasKey(accounts, account.parent.value)
  {
    stopped, r := true, Err(AccountHierarchyCycle);
    if again {
      SeenNeverStops(accounts, id, n);
      PassedAgain(accounts, id, n);
    } else if account.number.Some? || account.parent.None? {
      StopIs(accounts, id, n);
      r := Ok(account.number);
    } else if !HasKey(accounts, account.parent.value) {
      MissingNeverStops(accounts, id, n + 1);
      assert MissingAt(accounts, id, n + 1);
      r := Err(MissingParentAccount);
    } else {
      stopped := false;
    }
  }

  lemma LookupKeyed(accounts: Accounts, key: int)
    requires WellKeyed(accounts) && HasKey(accounts, key)
    ensures Lookup(accounts, key).value.id == key
  {
    var i :| 0 <= i < |accounts| && accounts[i].key == key;
    LookupAt(accounts, i);
  }

  lemma SearchBegins(accounts: Accounts, id: AccountId)
    requires WellKeyed(accounts) && HasKey(accounts, id)
    ensures SearchAt(accounts, id, Lookup(accounts, id).value, 0) && Passed(accounts, id, 0) == {}
  {
    LookupKeyed(accounts, id);
  }

  lemma SearchGoesOn(accounts: Accounts, id: AccountId, account: Account, n: nat)
    requires WellKeyed(accounts) && SearchAt(accounts, id, account, n)
    requires account.number.None? && account.parent.Some? && HasKey(accounts, account.parent.value)
    ensures SearchAt(accounts, id, Lookup(accounts, account.parent.value).value, n + 1)
    ensures Passed(accounts, id, n + 1) == Passed(accounts, id, n) + {account.id} && account.id in Ids(accounts)
  {
    LookupKeyed(accounts, account.parent.value);
    PassedInside(accounts, id, n + 1);
  }

  lemma OneFewer(ids: set<AccountId>, seen: set<AccountId>, id: AccountId)
    requires id in ids && id !in seen
    ensures ids - (seen + {id}) < ids - seen
  {
    assert id in ids - seen;
  }

  method NearestNumber(accounts: Accounts, id: AccountId) returns (r: Result<Option<string>, NameError>)
    requires WellKeyed(accounts) && HasKey(accounts, id)
    ensures Outcome(accounts, id, r)
  {
    var current := Lookup(accounts, id).value;
    var seen: set<AccountId> := {};
    ghost var n: nat := 0;
    SearchBegins(accounts, id);
    while true
      invariant SearchAt(accounts, id, current, n)
      invariant seen == Passed(accounts, id, n)
      decreases Ids(accounts) - seen
    {
      var stopped, found := SearchTurn(accounts, id, current, current.id in seen, n);
      if stopped {
        return found;
      }
      SearchGoesOn(accounts, id, current, n);
      OneFewer(Ids(accounts), seen, current.id);
      seen := seen + {current.id};
      current := Lookup(accounts, current.parent.value).value;
      n := n + 1;
    }
  }

  /** Succeeds exactly when every search stops and every account has a full name. */
  method DisplayNames(accounts: Accounts, fullNames: map<AccountId, string>)
    returns (r: Result<map<AccountId, string>, NameError>)
    requires WellKeyed(accounts)
    ensures r.Ok? <==>
      forall i :: 0 <= i < |accounts| ==> SearchStops(accounts, accounts[i].key) && accounts[i].key in fullNames
    ensures r.Ok? ==> forall id :: id in r.value <==> HasKey(accounts, id)
    ensures r.Ok? ==> forall i :: 0 <= i < |accounts| ==>
      && accounts[i].key in r.value
      && r.value[accounts[i].key] == Label(InheritedNumber(accounts, accounts[i].key), fullNames[accounts[i].key])
  {
    var labels := DisplayNameList(accounts, fullNames);
    if labels.Err? {
      return Err(labels.error);
    }
    assert accounts[..|accounts|] == accounts;
    return Ok(Keyed(accounts, labels.value));
  }

  method DisplayNameList(accounts: Accounts, fullNames: map<AccountId, string>)
    returns (r: Result<seq<string>, NameError>)
    requires WellKeyed(accounts)
    ensures r.Ok? <==>
      forall i :: 0 <= i < |accounts| ==> SearchStops(accounts, accounts[i].key) && accounts[i].key in fullNames
    ensures r.Ok? ==> |r.value| == |accounts|
    ensures r.Ok? ==> forall i :: 0 <= i < |accounts| ==>
      r.value[i] == Label(InheritedNumber(accounts, accounts[i].key), fullNames[accounts[i].key])
  {
    var labels: seq<string> := [];
    for i := 0 to |accounts|
      invariant |labels| == i
      invariant forall j :: 0 <= j < i ==>
        && SearchStops(accounts, accounts[j].key) && accounts[j].key in fullNames
        && labels[j] == Label(InheritedNumber(accounts, accounts[j].key), fullNames[accounts[j].key])
    {
      var id := accounts[i].key;
      assert HasKey(accounts, id);
      var number := NearestNumber(accounts, id);
      if number.Err? {
        return Err(number.error);
      }
      if id !in fullNames {
        return Err(MissingParentAccount);
      }
      labels := labels + [Label(number.value, fullNames[id])];
    }
    return Ok(labels);
  }

  // ---------------------------------------------------------------------
  // Accepted charts

  /** On every chart the hierarchy check accepts, both name passes succeed. */
  lemma AcceptedChartsHaveNames(accounts: Accounts, id: AccountId)
    requires WellKeyed(accounts) && IsVerdict(accounts, Clean) && HasKey(accounts, id)
    ensures EndsAtRoot(accounts, id) && SearchStops(accounts, id)
  {
    var i :| 0 <= i < |accounts| && accounts[i].key == id;
    assert Fate(accounts, id) == Clean;
    CleanEndsAtRoot(accounts, id);
    var n: nat :| RootAt(accounts, id, n);
    RootStops(accounts, id, n, 0);
  }
}
