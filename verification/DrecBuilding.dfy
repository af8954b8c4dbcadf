/** Building `drec` records by hand, and filling in schema defaults. */
module DrecBuilding {
  import opened Outcomes
  import opened Bytes
  import opened Words
  import opened SortedMaps
  import opened Drec
  import opened DrecRecords

  /** A field not read from any bytes. */
  function Unplaced(ordinal: u16, value: Value): Entry<Field> {
    Entry(ordinal, Field(ordinal, value, 0, 0, 0, 0))
  }

  ghost predicate DistinctOrdinals(pairs: seq<(u16, Value)>) {
    forall i, j :: 0 <= i < j < |pairs| ==> pairs[i].0 != pairs[j].0
  }

  /** The record holds the pairs, all of them and nothing else. */
  ghost predicate Holds(record: Record, flag: byte, pairs: seq<(u16, Value)>) {
    && record.Valid()
    && record.flag == flag
    && forall e :: e in record.fields <==> Among(e, pairs)
  }

  ghost predicate Among(e: Entry<Field>, pairs: seq<(u16, Value)>) {
    exists i :: 0 <= i < |pairs| && e == Unplaced(pairs[i].0, pairs[i].1)
  }

  lemma AmongPush(e: Entry<Field>, pairs: seq<(u16, Value)>, p: (u16, Value))
    ensures Among(e, pairs + [p]) <==> Among(e, pairs) || e == Unplaced(p.0, p.1)
  {
    var more := pairs + [p];
    assert more[|pairs|] == p;
    if Among(e, pairs) {
      var i :| 0 <= i < |pairs| && e == Unplaced(pairs[i].0, pairs[i].1);
      assert more[i] == pairs[i];
    }
  }

  lemma InsertValid(record: Record, ordinal: u16, field: Field)
    requires record.Valid()
    ensures record.(fields := Insert(record.fields, ordinal, field)).Valid()
  {
    var r := Insert(record.fields, ordinal, field);
    InsertAscending(record.fields, ordinal, field);
    forall i | 0 <= i < |r|
      ensures 0 <= r[i].key < 0x1_0000
    {
      InsertMembers(record.fields, ordinal, field, r[i]);
      assert r[i] in r;
    }
  }

  lemma KeyIsMember(fields: Fields, key: int)
    ensures HasKey(fields, key) <==> exists e :: e in fields && e.key == key
  {
    if HasKey(fields, key) {
      var i :| 0 <= i < |fields| && fields[i].key == key;
      assert fields[i] in fields;
    }
  }

  method NewRecord(flag: byte, pairs: seq<(u16, Value)>) returns (r: Result<Record, DrecError>)
    ensures r.Ok? <==> forall i, j :: 0 <= i < j < |pairs| ==> pairs[i].0 != pairs[j].0
    ensures r.Ok? ==> Holds(r.value, flag, pairs)
    ensures r.Ok? ==> forall e :: e in r.value.fields ==> e.value == Field(e.key, e.value.value, 0, 0, 0, 0)
    ensures r.Err? ==> r.error == DuplicateOrdinal
  {
    var record := Record(flag, []);
    for i := 0 to |pairs|
      invariant DistinctOrdinals(pairs[..i])
      invariant Holds(record, flag, pairs[..i])
    {
      var (ordinal, value) := pairs[i];
      KeyIsMember(record.fields, ordinal);
      if HasKey(record.fields, ordinal) {
        var e :| e in record.fields && e.key == ordinal;
        var j :| 0 <= j < i && e == Unplaced(pairs[..i][j].0, pairs[..i][j].1);
        assert pairs[j].0 == pairs[i].0;
        return Err(DuplicateOrdinal);
      }
      forall j | 0 <= j < i
        ensures pairs[j].0 != ordinal
      {
        assert Among(Unplaced(pairs[..i][j].0, pairs[..i][j].1), pairs[..i]);
      }
      assert pairs[..i + 1] == pairs[..i] + [pairs[i]];
      HoldsOneMore(record, flag, pairs[..i], pairs[i]);
      InsertValid(record, ordinal, Unplaced(ordinal, value).value);
      record := record.(fields := Insert(record.fields, ordinal, Unplaced(ordinal, value).value));
    }
    assert pairs[..|pairs|] == pairs;
    return Ok(record);
  }

  lemma HoldsOneMore(record: Record, flag: byte, pairs: seq<(u16, Value)>, p: (u16, Value))
    requires Holds(record, flag, pairs) && !HasKey(record.fields, p.0)
    ensures forall e :: e in Insert(record.fields, p.0, Unplaced(p.0, p.1).value) <==> Among(e, pairs + [p])
  {
    KeyIsMember(record.fields, p.0);
    forall e
      ensures e in Insert(record.fields, p.0, Unplaced(p.0, p.1).value) <==> Among(e, pairs + [p])
    {
      InsertMembers(record.fields, p.0, Unplaced(p.0, p.1).value, e);
      AmongPush(e, pairs, p);
    }
  }

  /** The order in which fields are supplied leaves no trace, neither in the record nor in its bytes. */
  lemma SupplyOrderIsForgotten(r: Record, s: Record, flag: byte, pairs: seq<(u16, Value)>,
      shuffled: seq<(u16, Value)>, order: ByteOrder)
    requires Holds(r, flag, pairs) && Holds(s, flag, shuffled)
    requires multiset(pairs) == multiset(shuffled)
    ensures r == s && Wire(r, order) == Wire(s, order)
  {
    forall e
      ensures e in r.fields <==> e in s.fields
    {
      if e in r.fields {
        var i :| 0 <= i < |pairs| && e == Unplaced(pairs[i].0, pairs[i].1);
        assert pairs[i] in multiset(shuffled);
        var j :| 0 <= j < |shuffled| && shuffled[j] == pairs[i];
      }
      if e in s.fields {
        var j :| 0 <= j < |shuffled| && e == Unplaced(shuffled[j].0, shuffled[j].1);
        assert shuffled[j] in multiset(pairs);
        var i :| 0 <= i < |pairs| && pairs[i] == shuffled[j];
      }
    }
    AscendingUnique(r.fields, s.fields);
  }

  // ---------------------------------------------------------------------
  // Defaults

  /** The default the schema supplies for an ordinal the record omits. */
  ghost predicate Supplied(e: Entry<Field>, record: Record, schema: Schema, limit: nat) {
    && 0 <= e.key < limit <= |schema.fields| <= 0xFFFF
    && schema.fields[e.key].default.Some?
    && !HasKey(record.fields, e.key)
    && e == Unplaced(e.key, schema.fields[e.key].default.value)
  }

  /** The record with its omitted fields defaulted, for ordinals below a limit. */
  ghost predicate Defaulted(r: Record, record: Record, schema: Schema, limit: nat) {
    && r.Valid() && r.flag == record.flag
    && forall e :: e in r.fields <==> e in record.fields || Supplied(e, record, schema, limit)
  }

  method MaterializeSchemaDefaults(record: Record, schema: Schema) returns (r: Record)
    requires record.Valid() && ValidSchema(schema)
    ensures Defaulted(r, record, schema, |schema.fields|)
  {
    r := record;
    for index := 0 to |schema.fields|
      invariant Defaulted(r, record, schema, index)
    {
      KeyIsMember(r.fields, index);
      KeyIsMember(record.fields, index);
      if !HasKey(r.fields, index) && schema.fields[index].default.Some? {
        var field := Unplaced(index, schema.fields[index].default.value).value;
        InsertValid(r, index, field);
        forall e
          ensures e in Insert(r.fields, index, field) <==> e in record.fields || Supplied(e, record, schema, index + 1)
        {
          InsertMembers(r.fields, index, field, e);
        }
        r := r.(fields := Insert(r.fields, index, field));
      }
    }
  }

  /** The fields of the record are kept; the others are defaults of ordinals it does not have, and none is missing. */
  lemma DefaultedFields(r: Record, record: Record, schema: Schema, e: Entry<Field>)
    requires record.Valid() && ValidSchema(schema) && Defaulted(r, record, schema, |schema.fields|)
    ensures r.flag == record.flag && (e in record.fields ==> e in r.fields)
    ensures e in r.fields && e !in record.fields ==>
      && 0 <= e.key < |schema.fields| && schema.fields[e.key].default.Some?
      && (forall other :: other in record.fields ==> other.key != e.key)
      && e.value == Field(e.key, schema.fields[e.key].default.value, 0, 0, 0, 0)
    ensures 0 <= e.key < |schema.fields| && schema.fields[e.key].default.Some? ==> HasKey(r.fields, e.key)
  {
    KeyIsMember(record.fields, e.key);
    KeyIsMember(r.fields, e.key);
    if 0 <= e.key < |schema.fields| && schema.fields[e.key].default.Some? && !HasKey(record.fields, e.key) {
      assert Unplaced(e.key, schema.fields[e.key].default.value) in r.fields;
    }
  }

  /** Materializing twice changes nothing more. */
  lemma DefaultsAreStable(record: Record, once: Record, twice: Record, schema: Schema)
    requires record.Valid() && ValidSchema(schema)
    requires Defaulted(once, record, schema, |schema.fields|)
    requires Defaulted(twice, once, schema, |schema.fields|)
    ensures twice == once
  {
    forall e
      ensures e in twice.fields <==> e in once.fields
    {
      if Supplied(e, once, schema, |schema.fields|) {
        KeyIsMember(once.fields, e.key);
        KeyIsMember(record.fields, e.key);
      }
    }
    AscendingUnique(twice.fields, once.fields);
  }

  /** Materialized defaults are encodable: only the length cap can refuse the filled record. */
  lemma DefaultsEncode(record: Record, filled: Record, schema: Schema)
    requires record.Valid() && ValidSchema(schema) && Encodable(record, schema)
    requires Defaulted(filled, record, schema, |schema.fields|)
    ensures Encodable(filled, schema) <==> 3 + EmittedLen(filled.fields) <= DREC_MAX_LEN
  {
    forall i | 0 <= i < |filled.fields|
      ensures Agrees(filled.fields[i], schema)
    {
      var e := filled.fields[i];
      assert e in filled.fields;
      if e in record.fields {
        var j :| 0 <= j < |record.fields| && record.fields[j] == e;
        assert Agrees(record.fields[j], schema);
      } else {
        assert schema.fields[e.key] in schema.fields;
      }
    }
  }
}
