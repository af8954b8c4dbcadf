/** Subtracting the page changes of a control run: page by page while reading, or all at once afterwards. */
module ControlNoise {
  import opened Sequences
  import opened Bytes
  import opened Multisets
  import opened Outcomes
  import Sha256

  const PAGE_SIZE := 4096
  const PAGE_TYPE_OFFSET := 0xff2
  const CRC_OFFSET := 0xffc

  type Page = p: seq<byte> | |p| == PAGE_SIZE witness seq(PAGE_SIZE, _ => 0)

  /** The same page of the earlier and the later snapshot. */
  datatype PagePair = PagePair(before: Page, after: Page)

  /** The digests of both pages. */
  datatype HashPair = HashPair(before: string, after: string)

  function HashesOf(hash: Page -> string): PagePair -> HashPair {
    (p: PagePair) => HashPair(hash(p.before), hash(p.after))
  }

  function TypesOf(p: PagePair): (byte, byte) {
    (p.before[PAGE_TYPE_OFFSET], p.after[PAGE_TYPE_OFFSET])
  }

  function Changed(pages: seq<PagePair>): seq<PagePair> {
    if pages == [] then []
    else if pages[0].before == pages[0].after then Changed(pages[1..])
    else [pages[0]] + Changed(pages[1..])
  }

  /** The changed pages left when each one the control still accounts for is dropped and struck off the control. */
  function Kept(changed: seq<PagePair>, control: multiset<HashPair>, hash: Page -> string): seq<PagePair> {
    if changed == [] then []
    else
      var pair := HashesOf(hash)(changed[0]);
      if pair in control then Kept(changed[1..], control - multiset{pair}, hash)
      else [changed[0]] + Kept(changed[1..], control, hash)
  }

  function Observed(pages: seq<PagePair>, hash: Page -> string): multiset<HashPair> {
    multiset(Image(Changed(pages), HashesOf(hash)))
  }

  // ---------------------------------------------------------------------
  // Page by page

  lemma {:induction false} ChangedPush(pages: seq<PagePair>, p: PagePair)
    ensures Changed(pages + [p]) == Changed(pages) + (if p.before == p.after then [] else [p])
    decreases |pages|
  {
    if pages == [] {
      assert [] + [p] == [p] && [p][1..] == [];
    } else {
      assert (pages + [p])[1..] == pages[1..] + [p];
      ChangedPush(pages[1..], p);
    }
  }

  lemma KeptFirst(first: PagePair, rest: seq<PagePair>, control: multiset<HashPair>, hash: Page -> string)
    ensures var pair := HashesOf(hash)(first);
      Kept([first] + rest, control, hash)
        == if pair in control then Kept(rest, control - multiset{pair}, hash) else [first] + Kept(rest, control, hash)
  {
    assert ([first] + rest)[1..] == rest;
  }

  /** What is kept of one more change. */
  function KeptLast(p: PagePair, left: multiset<HashPair>, hash: Page -> string): seq<PagePair> {
    if HashesOf(hash)(p) in left then [] else [p]
  }

  /** Where the control stands after these changes decides about the next one. */
  lemma {:induction false} KeptPush(changed: seq<PagePair>, p: PagePair, control: multiset<HashPair>,
      hash: Page -> string)
    ensures Kept(changed + [p], control, hash)
      == Kept(changed, control, hash) + KeptLast(p, control - multiset(Image(changed, HashesOf(hash))), hash)
    decreases |changed|
  {
    if changed == [] {
      assert [] + [p] == [p] && [p] == [p] + [];
      KeptFirst(p, [], control, hash);
      assert control - multiset(Image(changed, HashesOf(hash))) == control;
    } else {
      var first, rest, pair := changed[0], changed[1..], HashesOf(hash)(changed[0]);
      assert changed == [first] + rest && changed + [p] == [first] + (rest + [p]);
      KeptFirst(first, rest, control, hash);
      KeptFirst(first, rest + [p], control, hash);
      HeadOff(changed, HashesOf(hash));
      DifferenceTail(pair, control, multiset(Image(rest, HashesOf(hash))));
      if pair in control {
        KeptPush(rest, p, control - multiset{pair}, hash);
      } else {
        KeptPush(rest, p, control, hash);
        RegroupMiddle([first], Kept(rest, control, hash),
          KeptLast(p, control - multiset(Image(rest, HashesOf(hash))), hash), []);
      }
    }
  }

  /** What one more page adds to what was observed. */
  lemma ObservedPush(pages: seq<PagePair>, p: PagePair, hash: Page -> string)
    ensures p.before == p.after ==>
      Changed(pages + [p]) == Changed(pages) && Observed(pages + [p], hash) == Observed(pages, hash)
    ensures p.before != p.after ==>
      && Changed(pages + [p]) == Changed(pages) + [p]
      && Observed(pages + [p], hash) == Observed(pages, hash) + multiset{HashesOf(hash)(p)}
  {
    ChangedPush(pages, p);
    ImagePush(Changed(pages), p, HashesOf(hash));
    assert Changed(pages) + [] == Changed(pages);
  }

  /** What a changed page does to what is kept and to the control. */
  lemma KeptStep(pages: seq<PagePair>, p: PagePair, control: multiset<HashPair>, left: multiset<HashPair>,
      hash: Page -> string)
    requires left == control - Observed(pages, hash) && p.before != p.after
    ensures Kept(Changed(pages + [p]), control, hash) == Kept(Changed(pages), control, hash) + KeptLast(p, left, hash)
    ensures control - Observed(pages + [p], hash)
      == if HashesOf(hash)(p) in left then left - multiset{HashesOf(hash)(p)} else left
  {
    ObservedPush(pages, p, hash);
    KeptPush(Changed(pages), p, control, hash);
    StrikeOff(HashesOf(hash)(p), control, Observed(pages, hash));
  }

  /** What the next page does to the counters of the loop. */
  lemma StreamStep(pages: seq<PagePair>, i: nat, control: multiset<HashPair>, left: multiset<HashPair>,
      hash: Page -> string)
    requires i < |pages| && left == control - Observed(pages[..i], hash)
    ensures pages[i].before == pages[i].after ==>
      Changed(pages[..i + 1]) == Changed(pages[..i]) && control - Observed(pages[..i + 1], hash) == left
    ensures pages[i].before != pages[i].after ==>
      var pair := HashesOf(hash)(pages[i]);
      && |Changed(pages[..i + 1])| == |Changed(pages[..i])| + 1
      && Kept(Changed(pages[..i + 1]), control, hash)
        == Kept(Changed(pages[..i]), control, hash) + KeptLast(pages[i], left, hash)
      && control - Observed(pages[..i + 1], hash) == if pair in left then left - multiset{pair} else left
  {
    assert pages[..i + 1] == pages[..i] + [pages[i]];
    ObservedPush(pages[..i], pages[i], hash);
    if pages[i].before != pages[i].after {
      KeptStep(pages[..i], pages[i], control, left, hash);
    }
  }

  /** One page: unchanged, accounted for by the control, or kept for the search. */
  method SubtractStreaming(pages: seq<PagePair>, control: multiset<HashPair>, hash: Page -> string)
    returns (raw: nat, subtracted: nat, remaining: seq<PagePair>)
    ensures raw == |Changed(pages)| && subtracted == raw - |remaining|
    ensures remaining == Kept(Changed(pages), control, hash)
  {
    raw, subtracted, remaining := 0, 0, [];
    var left := control;
    assert control - Observed([], hash) == control;
    for i := 0 to |pages|
      invariant raw == |Changed(pages[..i])| && subtracted + |remaining| == raw
      invariant remaining == Kept(Changed(pages[..i]), control, hash)
      invariant left == control - Observed(pages[..i], hash)
    {
      StreamStep(pages, i, control, left, hash);
      if pages[i].before != pages[i].after {
        raw := raw + 1;
        var pair := HashesOf(hash)(pages[i]);
        if pair in left {
          left := left - multiset{pair};
          subtracted := subtracted + 1;
        } else {
          remaining := remaining + [pages[i]];
        }
      }
    }
    assert pages[..|pages|] == pages;
  }

  // ---------------------------------------------------------------------
  // All at once

  /** For every pair of the control, in any order, as many observations go as the control has. */
  method SubtractBatch(observed: multiset<HashPair>, control: multiset<HashPair>)
    returns (remaining: multiset<HashPair>, subtracted: nat)
    ensures remaining == observed - control
    ensures subtracted == |observed * control|
  {
    remaining, subtracted := observed, 0;
    var pending := control;
    while pending != multiset{}
      invariant forall k :: k in pending ==> pending[k] == control[k]
      invariant forall k :: remaining[k] == if k in pending then observed[k] else (observed - control)[k]
      invariant subtracted + |pending * observed| == |control * observed|
      decreases |pending|
    {
      var pair :| pair in pending;
      if pair in remaining {
        var removed := if remaining[pair] < pending[pair] then remaining[pair] else pending[pair];
        remaining := remaining[pair := remaining[pair] - removed];
        subtracted := subtracted + removed;
      }
      IntersectionWithout(pending, observed, pair);
      pending := pending[pair := 0];
    }
    assert pending * observed == multiset{};
    assert control * observed == observed * control;
  }

  /** The page types seen last with every pair of digests. */
  function PairTypes(changed: seq<PagePair>, hash: Page -> string): map<HashPair, (byte, byte)> {
    if changed == [] then map[]
    else
      var last := changed[|changed| - 1];
      PairTypes(changed[..|changed| - 1], hash)[HashesOf(hash)(last) := TypesOf(last)]
  }

  /** All changed pages with the same digests have the same types. */
  ghost predicate DigestsFixTypes(changed: seq<PagePair>, hash: Page -> string) {
    forall p, q :: p in changed && q in changed && HashesOf(hash)(p) == HashesOf(hash)(q) ==> TypesOf(p) == TypesOf(q)
  }

  lemma {:induction false} PairTypesFound(changed: seq<PagePair>, hash: Page -> string, p: PagePair)
    requires p in changed
    ensures HashesOf(hash)(p) in PairTypes(changed, hash)
    ensures DigestsFixTypes(changed, hash) ==> PairTypes(changed, hash)[HashesOf(hash)(p)] == TypesOf(p)
  {
    var n := |changed| - 1;
    assert changed == changed[..n] + [changed[n]];
    if p in changed[..n] {
      PairTypesFound(changed[..n], hash, p);
    }
  }

  predicate CrcDiffers(p: PagePair) {
    p.before[CRC_OFFSET..] != p.after[CRC_OFFSET..]
  }

  function CrcChanges(changed: seq<PagePair>): nat {
    if changed == [] then 0
    else CrcChanges(changed[..|changed| - 1]) + (if CrcDiffers(changed[|changed| - 1]) then 1 else 0)
  }

  /**
    The raw counters of one comparison: changed pages, changed checksums, type and digest transitions, and the types
    of each digest pair.
  */
  datatype Observation = Observation(
    changed: nat,
    crcChanges: nat,
    types: multiset<(byte, byte)>,
    pairs: multiset<HashPair>,
    pairTypes: map<HashPair, (byte, byte)>)

  function ObservationOf(changed: seq<PagePair>, hash: Page -> string): Observation {
    Observation(
      |changed|,
      CrcChanges(changed),
      multiset(Image(changed, TypesOf)),
      multiset(Image(changed, HashesOf(hash))),
      PairTypes(changed, hash))
  }

  /** The counters with one more changed page. */
  ghost function OneMore(o: Observation, p: PagePair, hash: Page -> string): Observation {
    var pair := HashesOf(hash)(p);
    Observation(
      o.changed + 1,
      o.crcChanges + (if CrcDiffers(p) then 1 else 0),
      o.types + multiset{TypesOf(p)},
      o.pairs + multiset{pair},
      o.pairTypes[pair := TypesOf(p)])
  }

  lemma ObservationPush(changed: seq<PagePair>, p: PagePair, hash: Page -> string)
    ensures ObservationOf(changed + [p], hash) == OneMore(ObservationOf(changed, hash), p, hash)
  {
    assert (changed + [p])[..|changed|] == changed;
    CountPush(changed, p, TypesOf);
    CountPush(changed, p, HashesOf(hash));
  }

  lemma ObservedPage(pages: seq<PagePair>, i: nat, hash: Page -> string)
    requires i < |pages|
    ensures var o := ObservationOf(Changed(pages[..i]), hash);
      ObservationOf(Changed(pages[..i + 1]), hash)
        == if pages[i].before != pages[i].after then OneMore(o, pages[i], hash) else o
  {
    assert pages[..i + 1] == pages[..i] + [pages[i]];
    ChangedPush(pages[..i], pages[i]);
    if pages[i].before != pages[i].after {
      ObservationPush(Changed(pages[..i]), pages[i], hash);
    } else {
      assert Changed(pages[..i]) + [] == Changed(pages[..i]);
    }
  }

  method Observe(pages: seq<PagePair>, hash: Page -> string) returns (o: Observation)
    ensures o == ObservationOf(Changed(pages), hash)
  {
    o := Observation(0, 0, multiset{}, multiset{}, map[]);
    for i := 0 to |pages|
      invariant o == ObservationOf(Changed(pages[..i]), hash)
    {
      ObservedPage(pages, i, hash);
      if pages[i].before != pages[i].after {
        o := Noted(o, pages[i], hash);
      }
    }
    assert pages[..|pages|] == pages;
  }

  /** Counting one changed page. */
  method Noted(o: Observation, p: PagePair, hash: Page -> string) returns (r: Observation)
    ensures r == OneMore(o, p, hash)
  {
    var pair, types := HashesOf(hash)(p), TypesOf(p);
    AddCopies(o.types, types, 1);
    AddCopies(o.pairs, pair, 1);
    OneCopy(types);
    OneCopy(pair);
    r := o.(
      changed := o.changed + 1,
      types := o.types[types := o.types[types] + 1],
      pairs := o.pairs[pair := o.pairs[pair] + 1],
      pairTypes := o.pairTypes[pair := types]);
    if CrcDiffers(p) {
      r := r.(crcChanges := r.crcChanges + 1);
    }
  }

  /** The changed pages whose last four bytes changed. */
  function WithOtherCrc(changed: seq<PagePair>): seq<PagePair> {
    if changed == [] then []
    else
      var last := changed[|changed| - 1];
      WithOtherCrc(changed[..|changed| - 1]) + (if last.before[4092..] == last.after[4092..] then [] else [last])
  }

  lemma {:induction false} CrcChangesAreThose(changed: seq<PagePair>)
    ensures CrcChanges(changed) == |WithOtherCrc(changed)|
  {
    if changed != [] {
      CrcChangesAreThose(changed[..|changed| - 1]);
    }
  }

  /** What a changed page is counted as: its type bytes and its digests, before and after. */
  lemma ChangeIsCounted(changed: seq<PagePair>, hash: Page -> string, i: nat)
    requires i < |changed|
    ensures var before, after := changed[i].before, changed[i].after;
      && |Image(changed, TypesOf)| == |Image(changed, HashesOf(hash))| == |changed|
      && Image(changed, TypesOf)[i] == (before[4082], after[4082])
      && Image(changed, HashesOf(hash))[i] == HashPair(hash(before), hash(after))
  {
    ImageAt(changed, TypesOf, i);
    ImageAt(changed, HashesOf(hash), i);
  }

  /** A page is changed exactly if it differs. */
  lemma {:induction false} ChangedMembers(pages: seq<PagePair>, p: PagePair)
    ensures p in Changed(pages) <==> p in pages && p.before != p.after
  {
    if pages != [] {
      assert pages == [pages[0]] + pages[1..];
      ChangedMembers(pages[1..], p);
    }
  }

  // ---------------------------------------------------------------------
  // Both ways agree

  /**
    The changes kept one by one are the observed ones less the control, and as many are dropped as both have in
    common.
  */
  lemma {:induction false} KeptIsDifference(changed: seq<PagePair>, control: multiset<HashPair>, hash: Page -> string)
    ensures var observed := multiset(Image(changed, HashesOf(hash)));
      && multiset(Image(Kept(changed, control, hash), HashesOf(hash))) == observed - control
      && |changed| - |Kept(changed, control, hash)| == |observed * control|
    decreases |changed|
  {
    if changed == [] {
      assert multiset{} * control == multiset{};
    } else {
      var pair := HashesOf(hash)(changed[0]);
      var rest := multiset(Image(changed[1..], HashesOf(hash)));
      HeadOff(changed, HashesOf(hash));
      if pair in control {
        var less := control - multiset{pair};
        KeptIsDifference(changed[1..], less, hash);
        assert control == multiset{pair} + less;
        MatchHead(pair, rest, less);
        DifferenceHead(pair, rest, less);
      } else {
        KeptIsDifference(changed[1..], control, hash);
        HeadOff(Kept(changed, control, hash), HashesOf(hash));
        MatchMore(pair, rest, control);
        DifferenceMore(pair, rest, control);
      }
    }
  }

  /**
    Streaming and batch subtraction leave the same digest pairs equally often and drop equally many pages,
    whatever order the pages come in.
   */
  lemma StreamingRefinesBatch(pages: seq<PagePair>, reordered: seq<PagePair>, control: multiset<HashPair>,
      hash: Page -> string)
    requires multiset(pages) == multiset(reordered)
    ensures var kept := Kept(Changed(reordered), control, hash);
      && multiset(Image(kept, HashesOf(hash))) == Observed(pages, hash) - control
      && |Changed(reordered)| - |kept| == |Observed(pages, hash) * control|
      && |kept| == |Observed(pages, hash) - control|
  {
    var kept := Kept(Changed(reordered), control, hash);
    ChangedPermuted(pages, reordered);
    ImagePermuted(Changed(pages), Changed(reordered), HashesOf(hash));
    KeptIsDifference(Changed(reordered), control, hash);
    ImageAt(kept, HashesOf(hash), 0);
  }

  lemma {:induction false} ChangedCounts(pages: seq<PagePair>, p: PagePair)
    ensures multiset(Changed(pages))[p] == if p.before == p.after then 0 else multiset(pages)[p]
    decreases |pages|
  {
    if pages != [] {
      assert pages == [pages[0]] + pages[1..];
      ChangedCounts(pages[1..], p);
    }
  }

  lemma ChangedPermuted(pages: seq<PagePair>, reordered: seq<PagePair>)
    requires multiset(pages) == multiset(reordered)
    ensures multiset(Changed(pages)) == multiset(Changed(reordered))
  {
    forall p ensures multiset(Changed(pages))[p] == multiset(Changed(reordered))[p] {
      ChangedCounts(pages, p);
      ChangedCounts(reordered, p);
    }
  }

  /** No two different changes of this run have the same digests. */
  ghost predicate DigestsTellApart(changed: seq<PagePair>, hash: Page -> string) {
    forall p, q :: p in changed && q in changed && HashesOf(hash)(p) == HashesOf(hash)(q) ==> p == q
  }

  function Excess(n: nat, m: nat): nat {
    if n < m then 0 else n - m
  }

  lemma {:induction false} KeptCounts(changed: seq<PagePair>, control: multiset<HashPair>, hash: Page -> string,
      p: PagePair)
    requires DigestsTellApart(changed, hash)
    ensures multiset(Kept(changed, control, hash))[p]
      == if p in changed then Excess(multiset(changed)[p], control[HashesOf(hash)(p)]) else 0
    decreases |changed|
  {
    if changed != [] {
      var pair := HashesOf(hash)(changed[0]);
      assert changed == [changed[0]] + changed[1..];
      if pair in control {
        KeptCounts(changed[1..], control - multiset{pair}, hash, p);
      } else {
        KeptCounts(changed[1..], control, hash, p);
      }
    }
  }

  /** Where digests tell the pages apart, even the pages kept for the search do not depend on the page order. */
  lemma KeptPagesOrderFree(pages: seq<PagePair>, reordered: seq<PagePair>, control: multiset<HashPair>,
      hash: Page -> string)
    requires multiset(pages) == multiset(reordered) && DigestsTellApart(Changed(pages), hash)
    ensures multiset(Kept(Changed(pages), control, hash)) == multiset(Kept(Changed(reordered), control, hash))
  {
    var changed, changed' := Changed(pages), Changed(reordered);
    ChangedPermuted(pages, reordered);
    forall p ensures p in changed <==> p in changed' {
      assert p in multiset(changed) <==> p in multiset(changed');
    }
    forall p ensures multiset(Kept(changed, control, hash))[p] == multiset(Kept(changed', control, hash))[p] {
      KeptCounts(changed, control, hash, p);
      KeptCounts(changed', control, hash, p);
    }
  }

  // ---------------------------------------------------------------------
  // The page types of what remains

  /** The types of the members whose digests are among these. */
  function TypesAmong(kept: seq<PagePair>, pairs: multiset<HashPair>, hash: Page -> string): multiset<(byte, byte)> {
    if kept == [] then multiset{}
    else if HashesOf(hash)(kept[0]) in pairs then multiset{TypesOf(kept[0])} + TypesAmong(kept[1..], pairs, hash)
    else TypesAmong(kept[1..], pairs, hash)
  }

  function Occurrences(kept: seq<PagePair>, pair: HashPair, hash: Page -> string): nat {
    if kept == [] then 0 else (if HashesOf(hash)(kept[0]) == pair then 1 else 0) + Occurrences(kept[1..], pair, hash)
  }

  lemma {:induction false} OccurrencesAreCounted(kept: seq<PagePair>, pair: HashPair, hash: Page -> string)
    ensures Occurrences(kept, pair, hash) == multiset(Image(kept, HashesOf(hash)))[pair]
  {
    if kept != [] {
      HeadOff(kept, HashesOf(hash));
      OccurrencesAreCounted(kept[1..], pair, hash);
    }
  }

  /** Taking one pair of digests out of consideration takes out its own types, as often as the pair occurs. */
  lemma {:induction false} TypesWithout(kept: seq<PagePair>, pairs: multiset<HashPair>, pair: HashPair,
      types: (byte, byte), hash: Page -> string)
    requires pair in pairs
    requires forall p :: p in kept && HashesOf(hash)(p) == pair ==> TypesOf(p) == types
    ensures TypesAmong(kept, pairs, hash)
      == TypesAmong(kept, pairs[pair := 0], hash) + Copies(types, Occurrences(kept, pair, hash))
    decreases |kept|
  {
    if kept == [] {
    } else {
      var p, rest := kept[0], kept[1..];
      TypesWithout(rest, pairs, pair, types, hash);
      var others, n := TypesAmong(rest, pairs[pair := 0], hash), Occurrences(rest, pair, hash);
      if HashesOf(hash)(p) == pair {
        OneMoreCopy(types, n, others);
      } else {
        OneMoreOther(TypesOf(p), others, Copies(types, n));
      }
    }
  }

  lemma {:induction false} TypesOfAll(kept: seq<PagePair>, pairs: multiset<HashPair>, hash: Page -> string)
    requires forall p :: p in kept ==> HashesOf(hash)(p) in pairs
    ensures TypesAmong(kept, pairs, hash) == multiset(Image(kept, TypesOf))
  {
    if kept != [] {
      TypesOfAll(kept[1..], pairs, hash);
      HeadOff(kept, TypesOf);
    }
  }

  lemma TypesAtFirst(kept: seq<PagePair>, hash: Page -> string)
    ensures TypesAmong(kept, multiset(Image(kept, HashesOf(hash))), hash) == multiset(Image(kept, TypesOf))
  {
    var pairs := multiset(Image(kept, HashesOf(hash)));
    forall p | p in kept
      ensures HashesOf(hash)(p) in pairs
    {
      MemberImage(kept, HashesOf(hash), p);
    }
    TypesOfAll(kept, pairs, hash);
  }

  lemma {:induction false} TypesOfNone(kept: seq<PagePair>, hash: Page -> string)
    ensures TypesAmong(kept, multiset{}, hash) == multiset{}
  {
    if kept != [] {
      TypesOfNone(kept[1..], hash);
    }
  }

  /** One pair's share moves from what is still to be counted to what is. */
  lemma TypesStep(kept: seq<PagePair>, pairs: multiset<HashPair>, pair: HashPair, of: (byte, byte),
      counted: multiset<(byte, byte)>, hash: Page -> string)
    requires pair in pairs && pairs[pair] == multiset(Image(kept, HashesOf(hash)))[pair]
    requires forall p :: p in kept && HashesOf(hash)(p) == pair ==> TypesOf(p) == of
    ensures TypesAmong(kept, pairs, hash) + counted
      == TypesAmong(kept, pairs[pair := 0], hash) + counted[of := counted[of] + pairs[pair]]
  {
    TypesWithout(kept, pairs, pair, of, hash);
    OccurrencesAreCounted(kept, pair, hash);
    AddCopies(counted, of, pairs[pair]);
  }

  /** The remembered types of a list's digests are the types of its members. */
  ghost predicate TypesFit(kept: seq<PagePair>, pairTypes: map<HashPair, (byte, byte)>, hash: Page -> string) {
    forall p :: p in kept ==> HashesOf(hash)(p) in pairTypes && pairTypes[HashesOf(hash)(p)] == TypesOf(p)
  }

  /**
    Adding up the remaining transitions under the types remembered for their digests: every transition is
    counted once, and where the remembered types fit, what is counted is the types of the kept pages.
   */
  method RemainingTypes(remaining: multiset<HashPair>, pairTypes: map<HashPair, (byte, byte)>,
      ghost kept: seq<PagePair>, hash: Page -> string)
    returns (types: multiset<(byte, byte)>)
    requires remaining == multiset(Image(kept, HashesOf(hash)))
    requires forall p :: p in kept ==> HashesOf(hash)(p) in pairTypes
    ensures |types| == |remaining|
    ensures TypesFit(kept, pairTypes, hash) ==> types == multiset(Image(kept, TypesOf))
  {
    types := multiset{};
    var pending := remaining;
    TypesAtFirst(kept, hash);
    ghost var fit := TypesFit(kept, pairTypes, hash);
    while pending != multiset{}
      invariant forall pair :: pair in pending ==> pending[pair] == remaining[pair]
      invariant |types| + |pending| == |remaining|
      invariant fit ==> multiset(Image(kept, TypesOf)) == TypesAmong(kept, pending, hash) + types
      decreases |pending|
    {
      var pair :| pair in pending;
      ImageMember(kept, HashesOf(hash), pair);
      var of := pairTypes[pair];
      if fit {
        TypesStep(kept, pending, pair, of, types, hash);
      }
      types := types[of := types[of] + pending[pair]];
      pending := pending[pair := 0];
    }
    TypesOfNone(kept, hash);
  }

  /** A snapshot is known by its length and its digest. */
  datatype Identity<D> = Identity(byteLength: nat, sha256: D)

  /** A control manifest: its bytes and the transitions read from them. */
  datatype Control = Control(bytes: seq<byte>, transitions: multiset<HashPair>)

  datatype Comparison = Comparison(
    before: Identity<Sha256.State>,
    after: Identity<Sha256.State>,
    pageCount: nat,
    changedPages: nat,
    crcChanges: nat,
    types: multiset<(byte, byte)>,
    observed: multiset<HashPair>,
    subtractedPages: nat,
    remaining: multiset<HashPair>,
    remainingPages: nat,
    remainingTypes: multiset<(byte, byte)>,
    controlDigest: Option<Sha256.State>)

  function BeforeBytes(p: PagePair): Page {
    p.before
  }

  function AfterBytes(p: PagePair): Page {
    p.after
  }

  /** The control's transitions; a comparison without a control subtracts nothing. */
  function ControlOf(control: Option<Control>): multiset<HashPair> {
    match control case None => multiset{} case Some(c) => c.transitions
  }

  ghost function IdentityOf(compress: Sha256.Compression, initial: Sha256.State, bytes: seq<byte>)
    : Identity<Sha256.State>
  {
    Identity(|bytes|, Sha256.Digest(compress, initial, bytes))
  }

  lemma {:induction false} BytesOfPages(chunks: seq<seq<byte>>)
    requires forall chunk :: chunk in chunks ==> |chunk| == PAGE_SIZE
    ensures |Sha256.Flattened(chunks)| == |chunks| * PAGE_SIZE
  {
    if chunks != [] {
      assert chunks[|chunks| - 1] in chunks;
      BytesOfPages(chunks[..|chunks| - 1]);
    }
  }

  lemma {:induction false} ByteOfPages(chunks: seq<seq<byte>>, k: nat)
    requires forall chunk :: chunk in chunks ==> |chunk| == PAGE_SIZE
    requires k < |chunks| * PAGE_SIZE
    ensures k / PAGE_SIZE < |chunks|
    ensures |Sha256.Flattened(chunks)| == |chunks| * PAGE_SIZE
    ensures Sha256.Flattened(chunks)[k] == chunks[k / PAGE_SIZE][k % PAGE_SIZE]
  {
    var n := |chunks| - 1;
    BytesOfPages(chunks);
    assert chunks[n] in chunks;
    BytesOfPages(chunks[..n]);
    if k < n * PAGE_SIZE {
      ByteOfPages(chunks[..n], k);
    } else {
      assert k / PAGE_SIZE == n;
    }
  }

  /** The bytes hashed are those of the pages, one page after the other. */
  lemma SnapshotByte(pages: seq<PagePair>, k: nat)
    requires k < |pages| * 4096
    ensures var before := Sha256.Flattened(Image(pages, BeforeBytes));
      var after := Sha256.Flattened(Image(pages, AfterBytes));
      && |before| == |after| == |pages| * 4096 && k / 4096 < |pages|
      && before[k] == pages[k / 4096].before[k % 4096] && after[k] == pages[k / 4096].after[k % 4096]
  {
    ImageAt(pages, BeforeBytes, 0);
    ImageAt(pages, AfterBytes, 0);
    ByteOfPages(Image(pages, BeforeBytes), k);
    ByteOfPages(Image(pages, AfterBytes), k);
    ImageAt(pages, BeforeBytes, k / 4096);
    ImageAt(pages, AfterBytes, k / 4096);
  }

  /** One of the two snapshots, hashed page by page. */
  method Identify(pages: seq<PagePair>, side: PagePair -> Page, compress: Sha256.Compression, initial: Sha256.State)
    returns (r: Identity<Sha256.State>)
    ensures r == IdentityOf(compress, initial, Sha256.Flattened(Image(pages, side)))
    ensures r.byteLength == |pages| * PAGE_SIZE
  {
    var chunks: seq<seq<byte>> := Image(pages, side);
    ImageAt(pages, side, 0);
    BytesOfPages(chunks);
    var digest := Sha256.HashChunks(compress, initial, chunks);
    r := Identity(|pages| * PAGE_SIZE, digest);
  }

  method ControlDigest(control: Option<Control>, compress: Sha256.Compression, initial: Sha256.State)
    returns (r: Option<Sha256.State>)
    ensures control.None? ==> r.None?
    ensures control.Some? ==> r == Some(Sha256.Digest(compress, initial, control.value.bytes))
  {
    if control.None? {
      return None;
    }
    var digest := Sha256.HashChunks(compress, initial, [control.value.bytes]);
    assert Sha256.Flattened([control.value.bytes]) == control.value.bytes;
    return Some(digest);
  }

  lemma {:induction false} KeptAreChanged(changed: seq<PagePair>, control: multiset<HashPair>, hash: Page -> string,
      p: PagePair)
    requires p in Kept(changed, control, hash)
    ensures p in changed
    decreases |changed|
  {
    var pair := HashesOf(hash)(changed[0]);
    if pair in control {
      KeptAreChanged(changed[1..], control - multiset{pair}, hash, p);
    } else if p != changed[0] {
      KeptAreChanged(changed[1..], control, hash, p);
    }
  }

  lemma RememberedTypesFit(changed: seq<PagePair>, control: multiset<HashPair>, hash: Page -> string)
    ensures var kept := Kept(changed, control, hash);
      && (forall p :: p in kept ==> HashesOf(hash)(p) in PairTypes(changed, hash))
      && (DigestsFixTypes(changed, hash) ==> TypesFit(kept, PairTypes(changed, hash), hash))
  {
    forall p | p in Kept(changed, control, hash)
      ensures HashesOf(hash)(p) in PairTypes(changed, hash)
      ensures DigestsFixTypes(changed, hash) ==> PairTypes(changed, hash)[HashesOf(hash)(p)] == TypesOf(p)
    {
      KeptAreChanged(changed, control, hash, p);
      PairTypesFound(changed, hash, p);
    }
  }

  /**
    A comparison reports length and digest of both snapshots, the digest of the control manifest, the raw counters,
    and exactly what page-by-page subtraction would keep: as many pages, with the same digests, and, where equal
    digests have equal types, with the same types.
   */
  method CompareSnapshots(pages: seq<PagePair>, control: Option<Control>, hash: Page -> string,
    compress: Sha256.Compression, initial: Sha256.State)
    returns (r: Comparison)
    ensures r.before == IdentityOf(compress, initial, Sha256.Flattened(Image(pages, BeforeBytes)))
    ensures r.after == IdentityOf(compress, initial, Sha256.Flattened(Image(pages, AfterBytes)))
    ensures r.before.byteLength == r.after.byteLength == |pages| * PAGE_SIZE
    ensures r.controlDigest == match control
                               case None => None
                               case Some(c) => Some(Sha256.Digest(compress, initial, c.bytes))
    ensures r.pageCount == |pages| && r.changedPages == |Changed(pages)| && r.crcChanges == CrcChanges(Changed(pages))
    ensures r.types == multiset(Image(Changed(pages), TypesOf)) && r.observed == Observed(pages, hash)
    ensures var kept := Kept(Changed(pages), ControlOf(control), hash);
      && r.remaining == multiset(Image(kept, HashesOf(hash)))
      && r.remainingPages == |kept| == |r.remainingTypes|
      && r.subtractedPages == r.changedPages - |kept|
      && (DigestsFixTypes(Changed(pages), hash) ==> r.remainingTypes == multiset(Image(kept, TypesOf)))
  {
    var before := Identify(pages, BeforeBytes, compress, initial);
    var after := Identify(pages, AfterBytes, compress, initial);
    var o := Observe(pages, hash);
    var remaining, subtracted, types := SubtractControl(pages, o, control, hash);
    var controlDigest := ControlDigest(control, compress, initial);
    r := Comparison(
      before, after, |pages|,
      o.changed, o.crcChanges, o.types, o.pairs,
      subtracted, remaining, |remaining|, types, controlDigest);
    ImageAt(Kept(Changed(pages), ControlOf(control), hash), HashesOf(hash), 0);
  }

  /** The part behind the page loop. */
  method SubtractControl(ghost pages: seq<PagePair>, o: Observation, control: Option<Control>, hash: Page -> string)
    returns (remaining: multiset<HashPair>, subtracted: nat, types: multiset<(byte, byte)>)
    requires o == ObservationOf(Changed(pages), hash)
    ensures var kept := Kept(Changed(pages), ControlOf(control), hash);
      && remaining == multiset(Image(kept, HashesOf(hash))) && |types| == |remaining|
      && subtracted == |Changed(pages)| - |kept|
      && (DigestsFixTypes(Changed(pages), hash) ==> types == multiset(Image(kept, TypesOf)))
  {
    remaining, subtracted := o.pairs, 0;
    assert o.pairs - multiset{} == o.pairs && o.pairs * multiset{} == multiset{};
    if control.Some? {
      remaining, subtracted := SubtractBatch(o.pairs, control.value.transitions);
    }
    ghost var kept := Kept(Changed(pages), ControlOf(control), hash);
    KeptIsDifference(Changed(pages), ControlOf(control), hash);
    RememberedTypesFit(Changed(pages), ControlOf(control), hash);
    types := RemainingTypes(remaining, o.pairTypes, kept, hash);
  }

  lemma {:induction false} MemberImage<A, B>(xs: seq<A>, f: A -> B, x: A)
    requires x in xs
    ensures f(x) in Image(xs, f)
  {
    var i :| 0 <= i < |xs| && xs[i] == x;
    ImageAt(xs, f, i);
  }

  lemma {:induction false} ImageMember<A, B>(xs: seq<A>, f: A -> B, y: B)
    requires y in Image(xs, f)
    ensures exists x :: x in xs && f(x) == y
  {
    if f(xs[0]) != y {
      assert y in Image(xs[1..], f);
      ImageMember(xs[1..], f, y);
    }
  }
}
