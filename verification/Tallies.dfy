/** Histograms of byte sequences, their peaks, and the first position of a maximum. */
module Tallies {
  import opened Bytes

  /** How often `v` occurs in `s`. */
  function Tally(s: seq<byte>, v: byte): (n: nat)
    ensures n <= |s|
  {
    if |s| == 0 then 0
    else Tally(s[..|s| - 1], v) + (if s[|s| - 1] == v then 1 else 0)
  }

  lemma {:induction false} TallyConcat(s: seq<byte>, t: seq<byte>, v: byte)
    ensures Tally(s + t, v) == Tally(s, v) + Tally(t, v)
    decreases |t|
  {
    if t == [] {
      assert s + t == s;
    } else {
      assert (s + t)[..|s + t| - 1] == s + t[..|t| - 1];
      TallyConcat(s, t[..|t| - 1], v);
    }
  }

  /** Every byte of `s` moved down by `b`. */
  function Lowered(s: seq<byte>, b: byte): (r: seq<byte>)
    ensures |r| == |s|
  {
    seq(|s|, i requires 0 <= i < |s| => Sub(s[i], b))
  }

  /** Lowering a sequence slides its histogram; no count changes. */
  lemma {:induction false} TallyLowered(s: seq<byte>, b: byte, v: byte)
    ensures Tally(Lowered(s, b), v) == Tally(s, Add(v, b))
  {
    if s != [] {
      var t := s[..|s| - 1];
      assert Lowered(s, b)[..|s| - 1] == Lowered(t, b);
      TallyLowered(t, b, v);
    }
  }

  /** The histogram of `s`, as the 256 counters of the source. */
  function Histogram(s: seq<byte>): (h: seq<nat>)
    ensures |h| == 256
    ensures forall v: byte :: h[v] == Tally(s, v)
  {
    seq(256, v requires 0 <= v < 256 => Tally(s, v))
  }

  ghost predicate IsMax(s: seq<nat>, m: nat) {
    (exists k :: 0 <= k < |s| && s[k] == m) && forall k :: 0 <= k < |s| ==> s[k] <= m
  }

  function Max(s: seq<nat>): (m: nat)
    requires |s| > 0
    ensures IsMax(s, m)
  {
    if |s| == 1 then s[0]
    else
      var t := s[..|s| - 1];
      var m := Max(t);
      assert forall k :: 0 <= k < |t| ==> s[k] == t[k];
      if s[|s| - 1] > m then s[|s| - 1] else m
  }

  /** The count of the most common byte. */
  function Peak(s: seq<byte>): nat {
    Max(Histogram(s))
  }

  lemma PeakBounds(s: seq<byte>, v: byte)
    ensures Tally(s, v) <= Peak(s)
  {
    assert Histogram(s)[v] == Tally(s, v);
  }

  lemma PeakAttained(s: seq<byte>) returns (v: byte)
    ensures Tally(s, v) == Peak(s)
  {
    var h := Histogram(s);
    var k :| 0 <= k < |h| && h[k] == Max(h);
    v := k;
  }

  /** The peak does not see a shift of the alphabet. */
  lemma PeakLowered(s: seq<byte>, b: byte)
    ensures Peak(Lowered(s, b)) == Peak(s)
  {
    var v := PeakAttained(Lowered(s, b));
    TallyLowered(s, b, v);
    PeakBounds(s, Add(v, b));
    var w := PeakAttained(s);
    TallyLowered(s, b, Sub(w, b));
    assert Add(Sub(w, b), b) == w;
    PeakBounds(Lowered(s, b), Sub(w, b));
  }

  /** `k` is the first position that holds the maximum of `s`. */
  ghost predicate IsFirstMax(s: seq<nat>, k: nat) {
    && k < |s|
    && (forall j :: 0 <= j < |s| ==> s[j] <= s[k])
    && (forall j :: 0 <= j < k ==> s[j] < s[k])
  }

  function FirstMax(s: seq<nat>): (k: nat)
    requires |s| > 0
    ensures IsFirstMax(s, k)
  {
    if |s| == 1 then 0
    else
      var t := s[..|s| - 1];
      var k := FirstMax(t);
      assert forall j :: 0 <= j < |t| ==> s[j] == t[j];
      if s[|s| - 1] > s[k] then |s| - 1 else k
  }

  lemma FirstMaxUnique(s: seq<nat>, k: nat)
    requires IsFirstMax(s, k)
    ensures k == FirstMax(s)
  {
    var j := FirstMax(s);
    assert s[j] <= s[k] && s[k] <= s[j];
  }

  /** One more counter either takes over as the first maximum or changes nothing. */
  lemma FirstMaxExtended(s: seq<nat>, n: nat, k: nat)
    requires n < |s| && IsFirstMax(s[..n], k)
    ensures IsFirstMax(s[..n + 1], if s[n] > s[k] then n else k)
  {
    assert forall j :: 0 <= j < n ==> s[..n][j] == s[j] == s[..n + 1][j];
  }

  /** The sum of a row of counters. */
  function Sum(s: seq<nat>): nat {
    if |s| == 0 then 0 else Sum(s[..|s| - 1]) + s[|s| - 1]
  }

  lemma {:induction false} SumAdd(s: seq<nat>, t: seq<nat>, r: seq<nat>)
    requires |s| == |t| == |r|
    requires forall k :: 0 <= k < |s| ==> r[k] == s[k] + t[k]
    ensures Sum(r) == Sum(s) + Sum(t)
  {
    if |s| > 0 {
      var n := |s| - 1;
      SumAdd(s[..n], t[..n], r[..n]);
    }
  }

  lemma {:induction false} SumSingle(s: seq<nat>, at: nat, x: nat)
    requires at < |s|
    requires forall k :: 0 <= k < |s| ==> s[k] == if k == at then x else 0
    ensures Sum(s) == x
  {
    var n := |s| - 1;
    if at == n {
      SumZero(s[..n]);
    } else {
      SumSingle(s[..n], at, x);
    }
  }

  lemma {:induction false} SumZero(s: seq<nat>)
    requires forall k :: 0 <= k < |s| ==> s[k] == 0
    ensures Sum(s) == 0
  {
    if |s| > 0 {
      SumZero(s[..|s| - 1]);
    }
  }

  /** The positions whose counter reaches the threshold. */
  function Reaching(s: seq<nat>, threshold: nat): (r: set<nat>)
    ensures forall k :: k in r <==> 0 <= k < |s| && s[k] >= threshold
  {
    set k: nat | 0 <= k < |s| && s[k] >= threshold
  }

  /** Counters with a bounded sum cannot often reach a threshold. */
  lemma {:induction false} FewReach(s: seq<nat>, threshold: nat)
    ensures |Reaching(s, threshold)| * threshold <= Sum(s)
  {
    var r := Reaching(s, threshold);
    if |s| == 0 {
      assert r == {};
    } else {
      var n := |s| - 1;
      var q := Reaching(s[..n], threshold);
      FewReach(s[..n], threshold);
      if s[n] >= threshold {
        assert r == q + {n};
        assert (|q| + 1) * threshold == |q| * threshold + threshold;
      } else {
        assert r == q;
      }
    }
  }

  /** A sequence has as many bytes as its shifted histogram counts in all. */
  lemma {:induction false} HistogramTotal(s: seq<byte>, shift: byte, h: seq<nat>)
    requires |h| == 256
    requires forall v: byte :: h[v] == Tally(s, Add(v, shift))
    ensures Sum(h) == |s|
  {
    if s == [] {
      assert forall v: byte :: h[v] == 0;
      SumZero(h);
    } else {
      var t := s[..|s| - 1];
      var x := s[|s| - 1];
      var g := seq(256, v requires 0 <= v < 256 => Tally(t, Add(v, shift)));
      var one := seq(256, v requires 0 <= v < 256 => if Add(v, shift) == x then 1 else 0);
      HistogramTotal(t, shift, g);
      SumSingle(one, Sub(x, shift), 1);
      SumAdd(g, one, h);
    }
  }
}
