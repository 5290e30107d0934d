/**
 * The DMap class: a key/value map whose values are split into fragments,
 * kept in two tables of one database. Each of `set`, `delete` and `get`
 * runs in one transaction and is modelled as one atomic step; `clear` runs
 * two separate steps.
 */
module DMaps {
  import opened Wrappers
  import opened Values
  import opened Codec
  import opened FragmentIds
  import opened Tables
  import TableLemmas

  class DMap<T> {
    const name: string
    const codec: Codec<T>
    /** The key table (manifest): key -> ordered fragment IDs. */
    var keyTable: map<string, seq<string>>
    /** The value table: fragment ID -> fragment data. */
    var valueTable: map<string, Js<T>>

    function State(): Tables<T>
      reads this
    {
      Tables(keyTable, valueTable)
    }

    /** Opens the database, whose tables hold `stored`, with an already configured codec. */
    constructor (name: string, codec: Codec<T>, stored: Tables<T>)
      ensures this.name == name && this.codec == codec && State() == stored
    {
      this.name := name;
      this.codec := codec;
      keyTable := stored.keys;
      valueTable := stored.values;
    }

    /** `new DMap(config)`: fails without a name, fills in the default codec otherwise. */
    static method Open(config: Config<T>, stored: Tables<T>) returns (r: Result<DMap<T>, Error>)
      ensures r.Failure? <==> NameMissing(config.name)
      ensures r.Failure? ==> r.error == ConfigError
      ensures r.Success? ==> fresh(r.value) && r.value.name == config.name.value && r.value.codec == Configure(config).value && r.value.State() == stored
    {
      var configured := Configure(config);
      if configured.Failure? {
        return Failure(ConfigError);
      }
      var m := new DMap(config.name.value, configured.value, stored);
      return Success(m);
    }

    /**
     * `set(key, value)`: split the value, delete any existing entry, derive
     * the fragment IDs, bulk-add the fragments, add the entry. A bulkAdd that
     * meets a stored ID aborts the transaction and rolls everything back.
     */
    method Set(key: string, value: Js<T>) returns (r: Outcome<Error>)
      modifies this
      ensures var s := SetSpec(old(State()), key, value, codec.split);
        if s.Success? then r == Pass && State() == s.value
        else r == Fail(s.error) && State() == old(State())
      ensures old(Consistent(State())) ==> Consistent(State()) && (r == Pass <==> !InvalidValue(value))
    {
      if InvalidValue(value) {
        return Fail(ValueInvalid);
      }
      var fragments := codec.split(value);
      ghost var before := State();
      TableLemmas.WritePreservesConsistent(before, key, fragments);
      var savedKeys, savedValues := keyTable, valueTable;
      if key in keyTable {
        var existed := Delete(key);
      }
      assert State() == DeleteEntry(before, key);
      var fragIds: seq<string> := [];
      var records: seq<Record<T>> := [];
      for i := 0 to |fragments|
        invariant fragIds == FragIds(key, i)
        invariant records == Records(key, fragments[..i])
      {
        var data := fragments[i];
        var fragId := FragId(key, i);
        fragIds := fragIds + [fragId];
        records := records + [Record(fragId, data)];
      }
      assert fragments[..|fragments|] == fragments;
      if Collides(valueTable, records) {
        keyTable, valueTable := savedKeys, savedValues;
        return Fail(ConstraintError);
      }
      valueTable := valueTable + RecordMap(records);
      keyTable := keyTable[key := fragIds];
      return Pass;
    }

    /** `delete(key)`: false for an absent key; otherwise drop the entry's fragments and the entry. */
    method Delete(key: string) returns (found: bool)
      modifies this
      ensures found == (key in old(keyTable))
      ensures State() == DeleteEntry(old(State()), key)
      ensures old(Consistent(State())) ==> Consistent(State())
    {
      if key !in keyTable {
        return false;
      }
      ghost var before := State();
      var fragIds := keyTable[key];
      valueTable := valueTable - FragSet(fragIds);
      keyTable := keyTable - {key};
      if Consistent(before) {
        TableLemmas.DeletePreservesConsistent(before, key);
      }
      return true;
    }

    /**
     * `get(key)`: null for an absent key; otherwise query the entry's rows,
     * put them back in manifest order and join them. A missing row fails.
     */
    method Get(key: string) returns (r: Result<Js<T>, Error>)
      ensures r == GetSpec(State(), key, codec.join)
    {
      if key !in keyTable {
        return Success(Null);
      }
      var fragIds := keyTable[key];
      var objs := AnyOf(valueTable, fragIds);
      var frags := Reassemble(valueTable, fragIds, objs);
      if frags.None? {
        return Failure(FragmentMissing);
      }
      return Success(codec.join(frags.value));
    }

    /** `has(key)`: consults the key table only. */
    method Has(key: string) returns (b: bool)
      ensures b <==> key in keyTable
    {
      b := key in keyTable;
    }

    /** `size`: the number of key-table entries. */
    method Size() returns (n: nat)
      ensures n == |keyTable|
    {
      n := |keyTable|;
    }

    /** `clear()`: the key table first, then the value table, as two separate steps. */
    method Clear()
      modifies this
      ensures State() == Empty() && Consistent(State())
    {
      ClearKeyTable();
      ClearValueTable();
    }

    /** The first step of `clear`; between the two steps no entry references a missing row. */
    method ClearKeyTable()
      modifies this`keyTable
      ensures keyTable == map[] && valueTable == old(valueTable)
      ensures NoDangling(State())
    {
      keyTable := map[];
    }

    method ClearValueTable()
      modifies this`valueTable
      ensures valueTable == map[] && keyTable == old(keyTable)
    {
      valueTable := map[];
    }
  }

  /**
   * A client of the map, using only the contracts above: two keys are set,
   * one is read back, deleted, and then reported absent while the other
   * still reads back.
   */
  method TwoKeyScenario(x: string, y: string)
  {
    var config := Config(Some("demo"), None, None);
    var created := DMap<string>.Open(config, Empty());
    if created.Failure? {
      assert false;
    }
    var m := created.value;
    assert m.codec == DefaultCodec<string>();
    var t0 := m.State();
    var r := m.Set("a", Value(x));
    TableLemmas.SetThenGetDefault(t0, "a", Value(x));
    var t1 := m.State();
    TableLemmas.WritePreservesConsistent(t0, "a", [Value(x)]);
    r := m.Set("b", Value(y));
    TableLemmas.SetFrame(t1, "b", [Value(y)], DefaultJoin, "a");
    TableLemmas.SetThenGetDefault(t1, "b", Value(y));
    var t2 := m.State();
    TableLemmas.WritePreservesConsistent(t1, "b", [Value(y)]);
    var got := m.Get("a");
    assert got == Success(Value(x));
    var found := m.Delete("a");
    assert found;
    TableLemmas.DeleteFrame(t2, "a", DefaultJoin, "b");
    got := m.Get("a");
    assert got == Success(Null);
    var present := m.Has("a");
    assert !present;
    got := m.Get("b");
    assert got == Success(Value(y));
  }
}
