/** The order in which maps keyed by names are walked through: character by character, shorter first. */
module NameOrder {
  import opened Sequences

  predicate Below(a: string, b: string) {
    if b == [] then false
    else if a == [] then true
    else if a[0] != b[0] then a[0] < b[0]
    else Below(a[1..], b[1..])
  }

  /** The names agree in their first `k` characters; there the one ends, or has the smaller character. */
  ghost predicate ComesFirstAt(a: string, b: string, k: nat) {
    k <= |a| && k < |b| && a[..k] == b[..k] && (k == |a| || (a[k] as int) < (b[k] as int))
  }

  lemma ComesFirstInTail(a: string, b: string, k: nat)
    requires a != [] && b != [] && a[0] == b[0]
    ensures ComesFirstAt(a, b, k + 1) <==> ComesFirstAt(a[1..], b[1..], k)
    ensures !ComesFirstAt(a, b, 0)
  {
    if k < |a| && k + 1 < |b| {
      assert a[..k + 1] == [a[0]] + a[1..][..k] && b[..k + 1] == [b[0]] + b[1..][..k];
      assert a[1..][..k] == a[..k + 1][1..] && b[1..][..k] == b[..k + 1][1..];
    }
  }

  /** The first character in which two names differ decides; without one, the shorter name comes first. */
  lemma {:induction false} BelowExactly(a: string, b: string)
    ensures Below(a, b) <==> exists k: nat :: ComesFirstAt(a, b, k)
    decreases |a|
  {
    if a != [] && b != [] && a[0] == b[0] {
      BelowExactly(a[1..], b[1..]);
      ComesFirstInTail(a, b, 0);
      if k: nat :| ComesFirstAt(a, b, k) {
        ComesFirstInTail(a, b, k - 1);
      }
      if k: nat :| ComesFirstAt(a[1..], b[1..], k) {
        ComesFirstInTail(a, b, k);
        assert ComesFirstAt(a, b, k + 1);
      }
    } else {
      assert Below(a, b) <==> ComesFirstAt(a, b, 0);
      forall k: nat
        ensures ComesFirstAt(a, b, k) ==> k == 0
      {
        SameBeginning(a, b, k);
      }
    }
  }

  lemma SameBeginning(a: string, b: string, k: nat)
    ensures ComesFirstAt(a, b, k) && k > 0 ==> a != [] && b != [] && a[0] == b[0]
  {
    if ComesFirstAt(a, b, k) && k > 0 {
      assert a[..k][0] == b[..k][0];
    }
  }

  lemma {:induction false} BelowIsTotal(a: string, b: string)
    ensures a == b || Below(a, b) || Below(b, a)
    ensures !(Below(a, b) && Below(b, a)) && !Below(a, a)
    decreases |a|
  {
    if a != [] && b != [] && a[0] == b[0] {
      assert a == [a[0]] + a[1..] && b == [b[0]] + b[1..];
      BelowIsTotal(a[1..], b[1..]);
    }
    if a != [] {
      BelowIsTotal(a[1..], a[1..]);
    }
  }

  lemma {:induction false} BelowIsTransitive(a: string, b: string, c: string)
    requires Below(a, b) && Below(b, c)
    ensures Below(a, c)
    decreases |a|
  {
    if a != [] && a[0] == b[0] && b[0] == c[0] {
      BelowIsTransitive(a[1..], b[1..], c[1..]);
    }
  }

  ghost predicate IsLeast(name: string, names: set<string>) {
    name in names && forall other :: other in names ==> other == name || Below(name, other)
  }

  /** One pass over the names finds the least. */
  method LeastName(names: set<string>) returns (least: string)
    requires names != {}
    ensures IsLeast(least, names)
  {
    least :| least in names;
    var pending := names - {least};
    while pending != {}
      invariant pending <= names && least in names
      invariant forall other :: other in names - pending ==> other == least || Below(least, other)
      decreases |pending|
    {
      var name :| name in pending;
      BelowIsTotal(least, name);
      if Below(name, least) {
        forall other | other in names - pending && other != least ensures Below(name, other) {
          BelowIsTransitive(name, least, other);
        }
        least := name;
      }
      pending := pending - {name};
    }
  }

  lemma {:induction false} LeastExists(names: set<string>) returns (least: string)
    requires names != {}
    ensures IsLeast(least, names)
    decreases |names|
  {
    var name :| name in names;
    var others := names - {name};
    assert names == others + {name};
    if others == {} {
      least := name;
    } else {
      least := LeastExists(others);
      BelowIsTotal(least, name);
      if Below(name, least) {
        forall other | other in others && other != least ensures Below(name, other) {
          BelowIsTransitive(name, least, other);
        }
        least := name;
      }
    }
  }

  ghost function Least(names: set<string>): (least: string)
    requires names != {}
    ensures IsLeast(least, names)
  {
    assert exists least :: IsLeast(least, names) by {
      var least := LeastExists(names);
    }
    var least :| IsLeast(least, names);
    least
  }

  lemma LeastIsUnique(a: string, b: string, names: set<string>)
    requires IsLeast(a, names) && IsLeast(b, names)
    ensures a == b
  {
    BelowIsTotal(a, b);
  }

  /** The names in ascending order. */
  ghost function Ordered(names: set<string>): (list: seq<string>)
    ensures forall name :: name in list <==> name in names
    decreases |names|
  {
    if names == {} then []
    else [Least(names)] + Ordered(names - {Least(names)})
  }

  lemma {:induction false} OrderedAscends(names: set<string>, i: nat, j: nat)
    requires i < j < |Ordered(names)|
    ensures Below(Ordered(names)[i], Ordered(names)[j])
    decreases |names|
  {
    var rest := Ordered(names - {Least(names)});
    if i == 0 {
      assert rest[j - 1] in rest;
    } else {
      OrderedAscends(names - {Least(names)}, i - 1, j - 1);
    }
  }

  /** Walking through the names of a map. */
  method InOrder(names: set<string>) returns (list: seq<string>)
    ensures list == Ordered(names)
  {
    list := [];
    var pending := names;
    while pending != {}
      invariant list + Ordered(pending) == Ordered(names)
      decreases |pending|
    {
      var least := LeastName(pending);
      LeastIsUnique(least, Least(pending), pending);
      RegroupMiddle(list, [least], Ordered(pending - {least}), []);
      list := list + [least];
      pending := pending - {least};
    }
  }
}
