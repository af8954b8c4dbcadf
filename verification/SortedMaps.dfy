/** Ordered maps, seen as their entries in ascending key order: what iterating a `BTreeMap` yields. */
module SortedMaps {
  import opened Outcomes

  datatype Entry<+V> = Entry(key: int, value: V)

  /** No key twice, smaller keys first. */
  ghost predicate Ascending<V>(m: seq<Entry<V>>) {
    forall i, j :: 0 <= i < j < |m| ==> m[i].key < m[j].key
  }

  predicate HasKey<V>(m: seq<Entry<V>>, key: int) {
    exists i :: 0 <= i < |m| && m[i].key == key
  }

  function Lookup<V>(m: seq<Entry<V>>, key: int): (r: Option<V>)
    ensures r.Some? <==> HasKey(m, key)
  {
    if m == [] then None
    else if m[0].key == key then Some(m[0].value)
    else
      KeyInTail(m, key);
      Lookup(m[1..], key)
  }

  lemma KeyInTail<V>(m: seq<Entry<V>>, key: int)
    requires m != [] && m[0].key != key
    ensures HasKey(m, key) <==> HasKey(m[1..], key)
  {
    if HasKey(m, key) {
      var i :| 0 <= i < |m| && m[i].key == key;
      assert m[1..][i - 1].key == key;
    }
    if HasKey(m[1..], key) {
      var i :| 0 <= i < |m[1..]| && m[1..][i].key == key;
      assert m[i + 1].key == key;
    }
  }

  /** An entry is what its own key finds. */
  lemma {:induction false} LookupAt<V>(m: seq<Entry<V>>, i: nat)
    requires Ascending(m) && i < |m|
    ensures Lookup(m, m[i].key) == Some(m[i].value)
  {
    if i > 0 {
      LookupAt(m[1..], i - 1);
    }
  }

  /** Insertion at the key's place; an entry already there is replaced. */
  function Insert<V>(m: seq<Entry<V>>, key: int, value: V): (r: seq<Entry<V>>) {
    if m == [] || key < m[0].key then [Entry(key, value)] + m
    else if key == m[0].key then [Entry(key, value)] + m[1..]
    else [m[0]] + Insert(m[1..], key, value)
  }

  lemma InHeadOrTail<V>(x: Entry<V>, t: seq<Entry<V>>, e: Entry<V>)
    ensures e in [x] + t <==> e == x || e in t
  {
  }

  lemma AboveHead<V>(m: seq<Entry<V>>, e: Entry<V>)
    requires Ascending(m) && m != [] && e in m[1..]
    ensures e.key > m[0].key
  {
    var i :| 0 <= i < |m[1..]| && m[1..][i] == e;
    assert m[i + 1] == e;
  }

  /** Insertion changes what is found under its own key only. */
  lemma {:induction false} InsertMembers<V>(m: seq<Entry<V>>, key: int, value: V, e: Entry<V>)
    requires Ascending(m)
    ensures e in Insert(m, key, value) <==> e == Entry(key, value) || (e in m && e.key != key)
  {
    if m != [] {
      assert m == [m[0]] + m[1..];
      InHeadOrTail(m[0], m[1..], e);
      if e in m[1..] {
        AboveHead(m, e);
      }
      if key < m[0].key {
        InHeadOrTail(Entry(key, value), m, e);
      } else if key == m[0].key {
        InHeadOrTail(Entry(key, value), m[1..], e);
      } else {
        InsertMembers(m[1..], key, value, e);
        InHeadOrTail(m[0], Insert(m[1..], key, value), e);
      }
    }
  }

  lemma PushFront<V>(x: Entry<V>, t: seq<Entry<V>>)
    requires Ascending(t)
    requires forall e :: e in t ==> x.key < e.key
    ensures Ascending([x] + t)
  {
    var r := [x] + t;
    forall i, j | 0 <= i < j < |r|
      ensures r[i].key < r[j].key
    {
      assert r[j] == t[j - 1] && t[j - 1] in t;
    }
  }

  /** Insertion keeps the order. */
  lemma {:induction false} InsertAscending<V>(m: seq<Entry<V>>, key: int, value: V)
    requires Ascending(m)
    ensures Ascending(Insert(m, key, value))
  {
    if m != [] {
      forall e | e in m[1..]
        ensures e.key > m[0].key
      {
        AboveHead(m, e);
      }
      if key < m[0].key {
        forall e | e in m
          ensures key < e.key
        {
          assert m == [m[0]] + m[1..];
          InHeadOrTail(m[0], m[1..], e);
        }
        PushFront(Entry(key, value), m);
      } else if key == m[0].key {
        PushFront(Entry(key, value), m[1..]);
      } else {
        var t := Insert(m[1..], key, value);
        InsertAscending(m[1..], key, value);
        forall e | e in t
          ensures m[0].key < e.key
        {
          InsertMembers(m[1..], key, value, e);
        }
        PushFront(m[0], t);
      }
    }
  }

  /** A key above all others is appended. */
  lemma {:induction false} InsertLast<V>(m: seq<Entry<V>>, key: int, value: V)
    requires forall i :: 0 <= i < |m| ==> m[i].key < key
    ensures Insert(m, key, value) == m + [Entry(key, value)]
  {
    if m != [] {
      InsertLast(m[1..], key, value);
      assert m == [m[0]] + m[1..];
    }
  }

  lemma HasMember<V>(n: seq<Entry<V>>)
    ensures n == [] || exists e :: e in n
  {
    if n != [] {
      assert n[0] in n;
    }
  }

  /** A sorted map is determined by the set of its entries. */
  lemma {:induction false} AscendingUnique<V>(m: seq<Entry<V>>, n: seq<Entry<V>>)
    requires Ascending(m) && Ascending(n)
    requires forall e :: e in m <==> e in n
    ensures m == n
  {
    if m == [] {
      HasMember(n);
    } else {
      assert m[0] in n;
      var i :| 0 <= i < |n| && n[i] == m[0];
      assert n[0] in m;
      var j :| 0 <= j < |m| && m[j] == n[0];
      assert i == 0 && j == 0;
      forall e
        ensures e in m[1..] <==> e in n[1..]
      {
        RestOf(m, e);
        RestOf(n, e);
      }
      AscendingUnique(m[1..], n[1..]);
      assert m == [m[0]] + m[1..] && n == [n[0]] + n[1..];
    }
  }

  lemma RestOf<V>(m: seq<Entry<V>>, e: Entry<V>)
    requires Ascending(m) && m != []
    ensures e in m[1..] <==> e in m && e != m[0]
  {
    assert m == [m[0]] + m[1..];
    if e in m[1..] {
      var i :| 0 <= i < |m[1..]| && m[1..][i] == e;
      assert m[i + 1].key > m[0].key;
    }
  }
}
