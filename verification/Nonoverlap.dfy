/** Counting the occurrences of a needle from left to right, each search starting behind the last find. */
module Nonoverlap {
  import opened Sequences
  import opened Bytes
  import opened Outcomes

  /** No two of these places overlap, and the needle stands at all of them. */
  ghost predicate DisjointOccurrences(haystack: seq<byte>, needle: seq<byte>, places: set<nat>) {
    && (forall i :: i in places ==> OccursAt(haystack, needle, i))
    && (forall i, j :: i in places && j in places && i < j ==> i + |needle| <= j)
  }

  /** The window search: the first place from `at` on. */
  method Position(haystack: seq<byte>, needle: seq<byte>, at: nat) returns (found: Option<nat>)
    requires needle != [] && at <= |haystack|
    ensures found.Some? ==> at <= found.value && OccursAt(haystack, needle, found.value)
    ensures forall i: nat :: at <= i < (if found.Some? then found.value else |haystack|) ==>
      !OccursAt(haystack, needle, i)
  {
    var i := at;
    while i + |needle| <= |haystack|
      invariant at <= i <= |haystack|
      invariant forall k: nat :: at <= k < i ==> !OccursAt(haystack, needle, k)
    {
      if haystack[i..i + |needle|] == needle {
        return Some(i);
      }
      i := i + 1;
    }
    return None;
  }

  /** The places from `at` on that do not overlap the needle standing at `found`. */
  function Behind(places: set<nat>, bound: nat): set<nat> {
    set i | i in places && bound <= i
  }

  /** At most one of the places can lie in the window of the first occurrence. */
  lemma OneInWindow(haystack: seq<byte>, needle: seq<byte>, places: set<nat>, at: nat, found: nat)
    requires DisjointOccurrences(haystack, needle, places) && needle != []
    requires forall i: nat :: at <= i < found ==> !OccursAt(haystack, needle, i)
    ensures |Behind(places, at)| <= 1 + |Behind(places, found + |needle|)|
  {
    var near, far := Behind(places, at), Behind(places, found + |needle|);
    if x :| x in near && x !in far {
      forall y | y in near ensures y == x || y in far {
        assert OccursAt(haystack, needle, x) && OccursAt(haystack, needle, y);
        assert found <= x < found + |needle| && found <= y;
      }
      assert near <= far + {x};
      Smaller(near, far + {x});
    } else {
      assert near <= far;
      Smaller(near, far);
    }
  }

  /** Beyond those counted so far, a set of places has at most its places behind `at`. */
  ghost predicate Bounded(haystack: seq<byte>, needle: seq<byte>, count: nat, at: nat) {
    forall others :: DisjointOccurrences(haystack, needle, others) ==> |others| <= count + |Behind(others, at)|
  }

  lemma BoundedAtStart(haystack: seq<byte>, needle: seq<byte>)
    ensures Bounded(haystack, needle, 0, 0)
  {
    forall others | DisjointOccurrences(haystack, needle, others) ensures |others| <= |Behind(others, 0)| {
      assert Behind(others, 0) == others;
    }
  }

  lemma BoundedBehindFind(haystack: seq<byte>, needle: seq<byte>, count: nat, at: nat, found: nat)
    requires Bounded(haystack, needle, count, at) && needle != []
    requires forall i: nat :: at <= i < found ==> !OccursAt(haystack, needle, i)
    ensures Bounded(haystack, needle, count + 1, found + |needle|)
  {
    forall others | DisjointOccurrences(haystack, needle, others)
      ensures |others| <= count + 1 + |Behind(others, found + |needle|)|
    {
      OneInWindow(haystack, needle, others, at, found);
    }
  }

  lemma BoundedAtEnd(haystack: seq<byte>, needle: seq<byte>, count: nat, at: nat)
    requires Bounded(haystack, needle, count, at) && needle != []
    requires forall i: nat :: at <= i < |haystack| ==> !OccursAt(haystack, needle, i)
    ensures forall others :: DisjointOccurrences(haystack, needle, others) ==> |others| <= count
  {
    forall others | DisjointOccurrences(haystack, needle, others) ensures |others| <= count {
      assert Behind(others, at) == {};
    }
  }

  /** Every place ends before `bound`. */
  ghost predicate EndBy(needle: seq<byte>, places: set<nat>, bound: nat) {
    forall i :: i in places ==> i + |needle| <= bound
  }

  lemma AddFind(haystack: seq<byte>, needle: seq<byte>, places: set<nat>, at: nat, found: nat)
    requires DisjointOccurrences(haystack, needle, places) && EndBy(needle, places, at) && needle != []
    requires at <= found && OccursAt(haystack, needle, found)
    ensures DisjointOccurrences(haystack, needle, places + {found}) && |places + {found}| == |places| + 1
    ensures EndBy(needle, places + {found}, found + |needle|)
  {
    assert found !in places;
  }

  lemma Smaller(a: set<nat>, b: set<nat>)
    requires a <= b
    ensures |a| <= |b|
  {
    assert b == a + (b - a);
  }

  /**
    The count is the greatest number of places at which the needle can stand without overlapping itself:
    the places found are such places, and no others are more. An empty needle counts as absent.
   */
  method CountNonoverlapping(haystack: seq<byte>, needle: seq<byte>) returns (count: nat, ghost places: set<nat>)
    ensures needle == [] ==> count == 0
    ensures needle != [] ==> DisjointOccurrences(haystack, needle, places) && |places| == count
    ensures needle != [] ==> forall others :: DisjointOccurrences(haystack, needle, others) ==> |others| <= count
  {
    count, places := 0, {};
    if needle == [] {
      return;
    }
    var at := 0;
    BoundedAtStart(haystack, needle);
    while true
      invariant at <= |haystack| && |places| == count
      invariant DisjointOccurrences(haystack, needle, places)
      invariant EndBy(needle, places, at)
      invariant Bounded(haystack, needle, count, at)
      decreases |haystack| - at
    {
      var found := Position(haystack, needle, at);
      if found == None {
        BoundedAtEnd(haystack, needle, count, at);
        return;
      }
      BoundedBehindFind(haystack, needle, count, at, found.value);
      AddFind(haystack, needle, places, at, found.value);
      count := count + 1;
      places := places + {found.value};
      at := found.value + |needle|;
    }
  }
}
