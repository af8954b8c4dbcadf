/** Counting list members by a projection: what `BTreeMap<K, usize>` counters hold, seen as multisets. */
module Multisets {
  function Image<A, B>(xs: seq<A>, f: A -> B): seq<B> {
    if xs == [] then [] else [f(xs[0])] + Image(xs[1..], f)
  }

  function Matched<K(==)>(xs: seq<K>, ys: seq<K>): nat {
    |multiset(xs) * multiset(ys)|
  }

  lemma {:induction false} ImageAt<A, B>(xs: seq<A>, f: A -> B, i: nat)
    requires i <= |xs|
    ensures |Image(xs, f)| == |xs|
    ensures i < |xs| ==> Image(xs, f)[i] == f(xs[i])
    decreases |xs|
  {
    if xs != [] {
      ImageAt(xs[1..], f, if i == 0 then 0 else i - 1);
    }
  }

  lemma {:induction false} ImagePush<A, B>(xs: seq<A>, x: A, f: A -> B)
    ensures Image(xs + [x], f) == Image(xs, f) + [f(x)]
    decreases |xs|
  {
    if xs == [] {
      assert [] + [x] == [x] && [x][1..] == [];
    } else {
      assert (xs + [x])[1..] == xs[1..] + [x];
      ImagePush(xs[1..], x, f);
    }
  }

  lemma CountPush<A, B>(xs: seq<A>, x: A, f: A -> B)
    ensures multiset(Image(xs + [x], f)) == multiset(Image(xs, f)) + multiset{f(x)}
  {
    ImagePush(xs, x, f);
  }

  /** Counting by key, one row at a time. */
  method Counts<A, K(==)>(rows: seq<A>, key: A -> K) returns (counts: multiset<K>)
    ensures counts == multiset(Image(rows, key))
  {
    counts := multiset{};
    for i := 0 to |rows|
      invariant counts == multiset(Image(rows[..i], key))
    {
      assert rows[..i + 1] == rows[..i] + [rows[i]];
      var k := key(rows[i]);
      CountPush(rows[..i], rows[i], key);
      AddCopies(counts, k, 1);
      OneCopy(k);
      counts := counts[k := counts[k] + 1];
    }
    assert rows[..|rows|] == rows;
  }

  lemma IntersectionWithout<K>(a: multiset<K>, b: multiset<K>, k: K)
    ensures |a * b| == |a[k := 0] * b| + (if a[k] < b[k] then a[k] else b[k])
  {
    assert a[k := 0] * b == (a * b)[k := 0];
  }

  lemma IntersectionAndDifference<K>(a: multiset<K>, b: multiset<K>)
    ensures |a * b| + |a - b| == |a|
  {
    assert (a * b) + (a - b) == a;
  }

  lemma EmptyDifferences<K>(a: multiset<K>, b: multiset<K>)
    ensures |a - b| == 0 && |b - a| == 0 <==> a == b
  {
    if |a - b| == 0 && |b - a| == 0 {
      forall k ensures a[k] == b[k] {
        assert (a - b)[k] == 0 && (b - a)[k] == 0;
      }
    }
  }

  lemma CountTwice<T>(s: seq<T>, i: nat, j: nat)
    requires i < j < |s| && s[i] == s[j]
    ensures multiset(s)[s[i]] >= 2
  {
    assert s == s[..j] + [s[j]] + s[j + 1..];
    assert s[..j][i] == s[i];
    assert multiset(s[..j])[s[i]] >= 1;
  }

  /** Each side is what both share and its own remainder; without remainders the sides are equal. */
  lemma BothSides<K>(a: multiset<K>, b: multiset<K>)
    ensures |a * b| + |a - b| == |a|
    ensures |a * b| + |b - a| == |b|
    ensures |a - b| == 0 && |b - a| == 0 <==> a == b
  {
    IntersectionAndDifference(a, b);
    IntersectionAndDifference(b, a);
    assert a * b == b * a;
    EmptyDifferences(a, b);
  }

  /** One more of the same on both sides is one more match. */
  lemma MatchHead<K>(x: K, rest: multiset<K>, less: multiset<K>)
    ensures |(multiset{x} + rest) * (multiset{x} + less)| == 1 + |rest * less|
  {
    assert (multiset{x} + rest) * (multiset{x} + less) == multiset{x} + rest * less;
  }

  lemma DifferenceHead<K>(x: K, a: multiset<K>, b: multiset<K>)
    ensures multiset{x} + a - (multiset{x} + b) == a - b
  {
  }

  lemma DifferenceMore<K>(x: K, a: multiset<K>, b: multiset<K>)
    requires x !in b
    ensures multiset{x} + a - b == multiset{x} + (a - b)
  {
  }

  lemma DifferenceTail<K>(x: K, a: multiset<K>, b: multiset<K>)
    ensures a - (multiset{x} + b) == if x in a then a - multiset{x} - b else a - b
  {
  }

  /** Subtracting one more: it is struck off if it is still there. */
  lemma StrikeOff<K>(x: K, a: multiset<K>, b: multiset<K>)
    ensures a - (b + multiset{x}) == if x in a - b then a - b - multiset{x} else a - b
  {
  }

  /** So many of one kind. */
  function Copies<K(==)>(x: K, n: nat): multiset<K> {
    multiset{}[x := n]
  }

  lemma OneCopy<K>(x: K)
    ensures Copies(x, 1) == multiset{x}
  {
  }

  lemma OneMoreCopy<K>(x: K, n: nat, others: multiset<K>)
    ensures multiset{x} + (others + Copies(x, n)) == others + Copies(x, n + 1)
  {
  }

  lemma OneMoreOther<K>(x: K, others: multiset<K>, copies: multiset<K>)
    ensures multiset{x} + (others + copies) == multiset{x} + others + copies
  {
  }

  lemma AddCopies<K>(counts: multiset<K>, x: K, n: nat)
    ensures counts[x := counts[x] + n] == counts + Copies(x, n)
  {
  }

  /** One more on one side never loses a match, and adds none if the other side does not have it. */
  lemma MatchMore<K>(x: K, rest: multiset<K>, ys: multiset<K>)
    ensures |rest * ys| <= |(multiset{x} + rest) * ys|
    ensures x !in ys ==> |rest * ys| == |(multiset{x} + rest) * ys|
  {
    var more, fewer := (multiset{x} + rest) * ys, rest * ys;
    assert more == fewer + (more - fewer);
    assert x !in ys ==> more == fewer;
  }

  lemma {:induction false} ImageConcat<A, B>(xs: seq<A>, ys: seq<A>, f: A -> B)
    ensures Image(xs + ys, f) == Image(xs, f) + Image(ys, f)
    decreases |xs|
  {
    if xs == [] {
      assert xs + ys == ys;
    } else {
      assert (xs + ys)[1..] == xs[1..] + ys;
      ImageConcat(xs[1..], ys, f);
    }
  }

  /** The list without one of its members, and what that does to counts and images. */
  lemma TakeOut<A, B>(ys: seq<A>, x: A, f: A -> B) returns (rest: seq<A>)
    requires x in ys
    ensures |rest| == |ys| - 1
    ensures multiset(ys) == multiset{x} + multiset(rest)
    ensures multiset(Image(ys, f)) == multiset{f(x)} + multiset(Image(rest, f))
  {
    var i :| 0 <= i < |ys| && ys[i] == x;
    var before, after := ys[..i], ys[i + 1..];
    rest := before + after;
    assert ys == before + ([x] + after);
    ImageConcat(before, [x] + after, f);
    ImageConcat([x], after, f);
    ImageConcat(before, after, f);
    assert Image([x], f) == [f(x)];
  }

  lemma HeadOff<A, B>(xs: seq<A>, f: A -> B)
    requires xs != []
    ensures multiset(xs) == multiset{xs[0]} + multiset(xs[1..])
    ensures multiset(Image(xs, f)) == multiset{f(xs[0])} + multiset(Image(xs[1..], f))
  {
    assert xs == [xs[0]] + xs[1..];
  }

  /** Keeping less of every row can only raise the number of matches. */
  lemma {:induction false} ForgettingKeepsMatches<A, B>(xs: seq<A>, ys: seq<A>, f: A -> B)
    ensures Matched(xs, ys) <= Matched(Image(xs, f), Image(ys, f))
    decreases |xs|
  {
    if xs == [] {
      assert multiset(xs) * multiset(ys) == multiset{};
    } else {
      var x, rest := xs[0], xs[1..];
      HeadOff(xs, f);
      if x in ys {
        var less := TakeOut(ys, x, f);
        ForgettingKeepsMatches(rest, less, f);
        MatchHead(x, multiset(rest), multiset(less));
        MatchHead(f(x), multiset(Image(rest, f)), multiset(Image(less, f)));
      } else {
        ForgettingKeepsMatches(rest, ys, f);
        MatchMore(x, multiset(rest), multiset(ys));
        MatchMore(f(x), multiset(Image(rest, f)), multiset(Image(ys, f)));
      }
    }
  }

  lemma {:induction false} ImageOfImage<A, B, C>(xs: seq<A>, f: A -> B, g: B -> C, h: A -> C)
    requires forall x :: g(f(x)) == h(x)
    ensures Image(Image(xs, f), g) == Image(xs, h)
    decreases |xs|
  {
    if xs != [] {
      assert Image(xs, f)[1..] == Image(xs[1..], f);
      ImageOfImage(xs[1..], f, g, h);
    }
  }

  lemma CancelHead<K>(x: K, a: multiset<K>, b: multiset<K>)
    requires multiset{x} + a == multiset{x} + b
    ensures a == b
  {
    assert a == multiset{x} + a - multiset{x};
    assert b == multiset{x} + b - multiset{x};
  }

  lemma {:induction false} ImagePermuted<A, B>(xs: seq<A>, ys: seq<A>, f: A -> B)
    requires multiset(xs) == multiset(ys)
    ensures multiset(Image(xs, f)) == multiset(Image(ys, f))
    decreases |xs|
  {
    if xs == [] {
      assert |multiset(ys)| == 0;
    } else {
      HeadOff(xs, f);
      assert xs[0] in multiset(ys);
      var rest := TakeOut(ys, xs[0], f);
      CancelHead(xs[0], multiset(xs[1..]), multiset(rest));
      ImagePermuted(xs[1..], rest, f);
    }
  }
}
