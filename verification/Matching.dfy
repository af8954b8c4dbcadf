/** Matching two lists of postings with their multiplicities. */
module Matching {
  import opened Outcomes
  import opened Money
  import opened Multisets

  datatype Identity = Identity(date: int, account: string, cents: int)

  datatype Posting = Posting(identity: Identity, kind: Option<string>)

  datatype Key = Key(identity: Identity, kind: Option<string>)

  datatype Reconciliation = Reconciliation(
    nativePostings: nat,
    generatedPostings: nat,
    matching: nat,
    missing: nat,
    extra: nat,
    matchingDateAmount: nat,
    sharedAccounts: nat,
    nativeOnlyAccounts: nat,
    generatedOnlyAccounts: nat,
    comparesTypes: bool)
  {
    predicate Passes() {
      missing == 0 && extra == 0
    }
  }

  // ---------------------------------------------------------------------
  // Transaction types

  /** Runs of white space become one blank. */
  function Collapsed(s: string): string {
    if s == [] then []
    else if !IsSpace(s[0]) then [s[0]] + Collapsed(s[1..])
    else if |s| > 1 && IsSpace(s[1]) then Collapsed(s[1..])
    else [' '] + Collapsed(s[1..])
  }

  function Lower(s: string): string {
    if s == [] then []
    else [if 'A' <= s[0] <= 'Z' then s[0] - 'A' + 'a' else s[0]] + Lower(s[1..])
  }

  function NormalizedType(kind: string): string {
    var normalized := Lower(Collapsed(Trim(kind)));
    if normalized == "journal" || normalized == "general journal" then "general journal"
    else if normalized == "vendor credit" || normalized == "credit" then "credit"
    else if normalized in ["bill payment check", "bill pmt-check", "bill pmt -check"] then "bill pmt-check"
    else normalized
  }

  predicate HasType(p: Posting) {
    p.kind.Some? && Trim(p.kind.value) != []
  }

  predicate AllTyped(rows: seq<Posting>) {
    forall i :: 0 <= i < |rows| ==> HasType(rows[i])
  }

  /** Types take part only if every row of both sides has one. */
  predicate CompareTypes(native: seq<Posting>, generated: seq<Posting>) {
    native != [] && generated != [] && AllTyped(native) && AllTyped(generated)
  }

  // ---------------------------------------------------------------------
  // Keys, and keys with less in them

  function TypedKey(p: Posting): Key {
    Key(p.identity, match p.kind case None => None case Some(kind) => Some(NormalizedType(kind)))
  }

  function BareKey(p: Posting): Key {
    Key(p.identity, None)
  }

  function KeyFor(typed: bool): Posting -> Key {
    if typed then TypedKey else BareKey
  }

  function DateAmount(k: Key): (int, int) {
    (k.identity.date, k.identity.cents)
  }

  function DateAmountOf(p: Posting): (int, int) {
    (p.identity.date, p.identity.cents)
  }

  function Accounts(rows: seq<Posting>): set<string> {
    set i | 0 <= i < |rows| :: rows[i].identity.account
  }

  /** The whole report as a function of the two lists. */
  function Reconciled(native: seq<Posting>, generated: seq<Posting>): Reconciliation {
    var typed := CompareTypes(native, generated);
    var ns, gs := Image(native, KeyFor(typed)), Image(generated, KeyFor(typed));
    var na, ga := Accounts(native), Accounts(generated);
    Reconciliation(
      |native|,
      |generated|,
      Matched(ns, gs),
      |multiset(ns) - multiset(gs)|,
      |multiset(gs) - multiset(ns)|,
      Matched(Image(native, DateAmountOf), Image(generated, DateAmountOf)),
      |na * ga|,
      |na - ga|,
      |ga - na|,
      typed)
  }

  // ---------------------------------------------------------------------
  // The loops

  method AllHaveType(rows: seq<Posting>) returns (all: bool)
    ensures all == AllTyped(rows)
  {
    all := true;
    for i := 0 to |rows|
      invariant all == AllTyped(rows[..i])
    {
      assert AllTyped(rows[..i + 1]) <==> AllTyped(rows[..i]) && HasType(rows[i]) by {
        assert rows[..i + 1] == rows[..i] + [rows[i]];
      }
      all := all && HasType(rows[i]);
    }
    assert rows[..|rows|] == rows;
  }

  /** Cancelling key by key, in any order of the keys, removes the common part from both sides. */
  method CancelCommon<K(==)>(native: multiset<K>, generated: multiset<K>)
    returns (matching: nat, missing: multiset<K>, extra: multiset<K>)
    ensures matching == |native * generated|
    ensures missing == native - generated && extra == generated - native
  {
    matching, missing, extra := 0, native, generated;
    var pending := native;
    while pending != multiset{}
      invariant forall k :: k in pending ==> pending[k] == native[k]
      invariant forall k :: missing[k] == if k in pending then native[k] else (native - generated)[k]
      invariant forall k :: extra[k] == if k in pending then generated[k] else (generated - native)[k]
      invariant matching + |pending * generated| == |native * generated|
      decreases |pending|
    {
      var k :| k in pending;
      if k in extra {
        var matched := if missing[k] < extra[k] then missing[k] else extra[k];
        missing := missing[k := missing[k] - matched];
        extra := extra[k := extra[k] - matched];
        matching := matching + matched;
      }
      IntersectionWithout(pending, generated, k);
      pending := pending[k := 0];
    }
    assert pending * generated == multiset{};
  }

  /** How many pairs of equal projections the two sides have. */
  method ProjectionOverlap<A, K(==)>(left: seq<A>, right: seq<A>, project: A -> K) returns (overlap: nat)
    ensures overlap == Matched(Image(left, project), Image(right, project))
  {
    var leftCounts := Counts(left, project);
    var rightCounts := Counts(right, project);
    overlap := 0;
    var pending := leftCounts;
    while pending != multiset{}
      invariant overlap + |pending * rightCounts| == |leftCounts * rightCounts|
      decreases |pending|
    {
      var k :| k in pending;
      IntersectionWithout(pending, rightCounts, k);
      overlap := overlap + if pending[k] < rightCounts[k] then pending[k] else rightCounts[k];
      pending := pending[k := 0];
    }
    assert pending * rightCounts == multiset{};
  }

  method ReconcileGeneralLedgerPostings(native: seq<Posting>, generated: seq<Posting>) returns (r: Reconciliation)
    ensures r == Reconciled(native, generated)
  {
    var nativeTyped := AllHaveType(native);
    var generatedTyped := AllHaveType(generated);
    var typed := native != [] && generated != [] && nativeTyped && generatedTyped;
    var nativeCounts := Counts(native, KeyFor(typed));
    var generatedCounts := Counts(generated, KeyFor(typed));
    var generatedPostings := |generatedCounts|;
    ImageAt(generated, KeyFor(typed), 0);
    var matching, missing, extra := CancelCommon(nativeCounts, generatedCounts);
    var dateAmount := ProjectionOverlap(native, generated, DateAmountOf);
    var nativeAccounts, generatedAccounts := Accounts(native), Accounts(generated);
    r := Reconciliation(
      |native|, generatedPostings, matching, |missing|, |extra|, dateAmount,
      |nativeAccounts * generatedAccounts|, |nativeAccounts - generatedAccounts|, |generatedAccounts - nativeAccounts|,
      typed);
  }

  // ---------------------------------------------------------------------
  // The algebra

  /** Matches of whole rows are also matches of their dates and amounts. */
  lemma MatchesAreDateAmountMatches(native: seq<Posting>, generated: seq<Posting>, typed: bool)
    ensures Matched(Image(native, KeyFor(typed)), Image(generated, KeyFor(typed)))
      <= Matched(Image(native, DateAmountOf), Image(generated, DateAmountOf))
  {
    var key := KeyFor(typed);
    var ns, gs := Image(native, key), Image(generated, key);
    ForgettingKeepsMatches(ns, gs, DateAmount);
    ImageOfImage(native, key, DateAmount, DateAmountOf);
    ImageOfImage(generated, key, DateAmount, DateAmountOf);
  }

  /** Comparing types can only lower the number of matches. */
  lemma TypesOnlyLower(native: seq<Posting>, generated: seq<Posting>)
    ensures Matched(Image(native, TypedKey), Image(generated, TypedKey))
      <= Matched(Image(native, BareKey), Image(generated, BareKey))
  {
    var untype := (k: Key) => k.(kind := None);
    var ns, gs := Image(native, TypedKey), Image(generated, TypedKey);
    ForgettingKeepsMatches(ns, gs, untype);
    ImageOfImage(native, TypedKey, untype, BareKey);
    ImageOfImage(generated, TypedKey, untype, BareKey);
  }

  /**
    The counts of a report: each side is its matches and its remainder, the report passes exactly when both
    sides have the same keys equally often, and the date and amount matches lie between the full matches and
    the shorter side.
   */
  lemma ReconciliationLaws(native: seq<Posting>, generated: seq<Posting>)
    ensures var r, key := Reconciled(native, generated), KeyFor(CompareTypes(native, generated));
      && r.nativePostings == |native| && r.generatedPostings == |generated|
      && r.matching == |multiset(Image(native, key)) * multiset(Image(generated, key))|
      && r.matchingDateAmount == |multiset(Image(native, DateAmountOf)) * multiset(Image(generated, DateAmountOf))|
      && r.comparesTypes == CompareTypes(native, generated)
    ensures var r := Reconciled(native, generated);
      && r.matching + r.missing == r.nativePostings
      && r.matching + r.extra == r.generatedPostings
      && r.matching <= r.matchingDateAmount <= (if |native| < |generated| then |native| else |generated|)
    ensures var typed := CompareTypes(native, generated);
      Reconciled(native, generated).Passes() <==>
        multiset(Image(native, KeyFor(typed))) == multiset(Image(generated, KeyFor(typed)))
    ensures var r := Reconciled(native, generated);
      && r.sharedAccounts + r.nativeOnlyAccounts == |Accounts(native)|
      && r.sharedAccounts + r.generatedOnlyAccounts == |Accounts(generated)|
  {
    var key := KeyFor(CompareTypes(native, generated));
    KeyLaws(native, generated, key);
    KeyLaws(native, generated, DateAmountOf);
    MatchesAreDateAmountMatches(native, generated, CompareTypes(native, generated));
    SharedAndOwn(Accounts(native), Accounts(generated));
    SharedAndOwn(Accounts(generated), Accounts(native));
    assert Accounts(native) * Accounts(generated) == Accounts(generated) * Accounts(native);
  }

  lemma KeyLaws<A, K>(native: seq<A>, generated: seq<A>, key: A -> K)
    ensures var ns, gs := Image(native, key), Image(generated, key);
      && Matched(ns, gs) + |multiset(ns) - multiset(gs)| == |native|
      && Matched(ns, gs) + |multiset(gs) - multiset(ns)| == |generated|
      && (|multiset(ns) - multiset(gs)| == 0 && |multiset(gs) - multiset(ns)| == 0 <==> multiset(ns) == multiset(gs))
  {
    ImageAt(native, key, 0);
    ImageAt(generated, key, 0);
    BothSides(multiset(Image(native, key)), multiset(Image(generated, key)));
  }

  lemma SharedAndOwn(a: set<string>, b: set<string>)
    ensures |a * b| + |a - b| == |a|
  {
    assert (a * b) + (a - b) == a;
  }

  /** The order of the rows on either side never matters. */
  lemma RowOrderIsIrrelevant(native: seq<Posting>, native': seq<Posting>, generated: seq<Posting>,
      generated': seq<Posting>)
    requires multiset(native) == multiset(native') && multiset(generated) == multiset(generated')
    ensures Reconciled(native, generated) == Reconciled(native', generated')
  {
    SameRows(native, native');
    SameRows(generated, generated');
    var key := KeyFor(CompareTypes(native, generated));
    ImagePermuted(native, native', key);
    ImagePermuted(generated, generated', key);
    ImagePermuted(native, native', DateAmountOf);
    ImagePermuted(generated, generated', DateAmountOf);
  }

  lemma SameRows(xs: seq<Posting>, ys: seq<Posting>)
    requires multiset(xs) == multiset(ys)
    ensures |xs| == |ys| && Accounts(xs) == Accounts(ys) && AllTyped(xs) == AllTyped(ys)
  {
    assert |multiset(xs)| == |xs| && |multiset(ys)| == |ys|;
    forall p ensures p in xs <==> p in ys {
      assert p in multiset(xs) <==> p in multiset(ys);
    }
    assert AllTyped(xs) <==> forall p :: p in xs ==> HasType(p);
    assert AllTyped(ys) <==> forall p :: p in ys ==> HasType(p);
    assert Accounts(xs) == set p | p in xs :: p.identity.account;
    assert Accounts(ys) == set p | p in ys :: p.identity.account;
  }
}
