/** Properties of the table state machine. */
module TableLemmas {
  import opened Wrappers
  import opened Values
  import opened Codec
  import opened FragmentIds
  import opened Tables

  /** Deleting an entry keeps the tables consistent. */
  lemma DeletePreservesConsistent<T>(t: Tables<T>, key: string)
    requires Consistent(t)
    ensures Consistent(DeleteEntry(t, key))
  {
    if key in t.keys {
      var d := DeleteEntry(t, key);
      var gone := FragSet(t.keys[key]);
      forall k, id | k in d.keys && id in d.keys[k]
        ensures id in d.values
      {
        if id in gone {
          var i :| 0 <= i < |t.keys[key]| && t.keys[key][i] == id;
          var j :| 0 <= j < |t.keys[k]| && t.keys[k][j] == id;
          FragIdsOwned(key, |t.keys[key]|, i, k, |t.keys[k]|, j);
        }
      }
      forall id | id in d.values
        ensures exists k :: k in d.keys && id in d.keys[k]
      {
        var k :| k in t.keys && id in t.keys[k];
        assert k != key;
        assert k in d.keys && id in d.keys[k];
      }
    }
  }

  /** In consistent tables the fragment IDs of a key are stored only on that key's behalf. */
  lemma OnlyOwnerStores<T>(t: Tables<T>, key: string, n: nat)
    requires Consistent(t) && key !in t.keys
    ensures forall i :: 0 <= i < n ==> FragId(key, i) !in t.values
  {
    forall i | 0 <= i < n
      ensures FragId(key, i) !in t.values
    {
      if FragId(key, i) in t.values {
        var k :| k in t.keys && FragId(key, i) in t.keys[k];
        var j :| 0 <= j < |t.keys[k]| && t.keys[k][j] == FragId(key, i);
        assert t.keys[k][j] == FragId(k, j);
        FragIdInjective(key, i, k, j);
      }
    }
  }

  /** From consistent tables, the bulkAdd of `set` never meets an ID already stored. */
  lemma WriteSucceeds<T>(t: Tables<T>, key: string, frags: seq<Js<T>>)
    requires Consistent(t)
    ensures Write(t, key, frags).Success?
  {
    var cleared := DeleteEntry(t, key);
    DeletePreservesConsistent(t, key);
    var recs := Records(key, frags);
    OnlyOwnerStores(cleared, key, |frags|);
    forall j | 0 <= j < |recs|
      ensures recs[j].fragID !in cleared.values
    {
      assert recs[j].fragID == FragId(key, j);
    }
  }

  /** Adding a fresh key's entry and its rows to consistent tables keeps them consistent. */
  lemma AddPreservesConsistent<T>(c: Tables<T>, key: string, frags: seq<Js<T>>)
    requires Consistent(c) && key !in c.keys
    ensures Consistent(Tables(c.keys[key := FragIds(key, |frags|)], c.values + RecordMap(Records(key, frags))))
  {
    var added := RecordMap(Records(key, frags));
    RecordMapOfRecords(key, frags);
    var w := Tables(c.keys[key := FragIds(key, |frags|)], c.values + added);
    forall k, id | k in w.keys && id in w.keys[k]
      ensures id in w.values
    {
      if k == key {
        var i :| 0 <= i < |frags| && FragIds(key, |frags|)[i] == id;
        assert FragId(key, i) in added;
      } else {
        assert id in c.keys[k];
      }
    }
    forall id | id in w.values
      ensures exists k :: k in w.keys && id in w.keys[k]
    {
      if id in added {
        assert key in w.keys && id in w.keys[key];
      } else {
        var k :| k in c.keys && id in c.keys[k];
        assert k in w.keys && id in w.keys[k];
      }
    }
  }

  /** `set` from consistent tables succeeds and leaves them consistent. */
  lemma WritePreservesConsistent<T>(t: Tables<T>, key: string, frags: seq<Js<T>>)
    ensures Consistent(t) ==> Write(t, key, frags).Success? && Consistent(Write(t, key, frags).value)
  {
    if Consistent(t) {
      WriteSucceeds(t, key, frags);
      DeletePreservesConsistent(t, key);
      AddPreservesConsistent(DeleteEntry(t, key), key, frags);
    }
  }

  /** A successful `set` of the fragments frags followed by `get` yields join(frags), whatever the prior tables. */
  lemma SetThenGet<T>(t: Tables<T>, key: string, frags: seq<Js<T>>, join: seq<Js<T>> -> Js<T>)
    requires Write(t, key, frags).Success?
    ensures GetSpec(Write(t, key, frags).value, key, join) == Success(join(frags))
  {
    var w := Write(t, key, frags).value;
    RecordMapOfRecords(key, frags);
    var ids := w.keys[key];
    assert ids == FragIds(key, |frags|);
    assert forall j :: 0 <= j < |ids| ==> ids[j] == FragId(key, j);
    assert AllStored(w.values, ids);
    assert Lookup(w.values, ids) == frags;
  }

  /** With the default codec, a `set` of a proper value from consistent tables reads back that value. */
  lemma SetThenGetDefault<T>(t: Tables<T>, key: string, value: Js<T>)
    requires Consistent(t) && !InvalidValue(value)
    ensures SetSpec(t, key, value, DefaultCodec<T>().split).Success?
    ensures GetSpec(SetSpec(t, key, value, DefaultCodec<T>().split).value, key, DefaultCodec<T>().join) == Success(value)
  {
    WriteSucceeds(t, key, DefaultSplit(value));
    SetThenGet(t, key, DefaultSplit(value), DefaultJoin);
    DefaultRoundTrip(value);
  }

  /** `get` of a key reads only that key's entry and the rows the entry names. */
  lemma GetReadsOnlyItsEntry<T>(t: Tables<T>, u: Tables<T>, key: string, join: seq<Js<T>> -> Js<T>)
    requires key in t.keys <==> key in u.keys
    requires key in t.keys ==> u.keys[key] == t.keys[key]
    requires key in t.keys ==> forall id :: id in t.keys[key] ==>
      (id in u.values <==> id in t.values) && (id in t.values ==> u.values[id] == t.values[id])
    ensures GetSpec(u, key, join) == GetSpec(t, key, join)
  {
    if key in t.keys {
      var ids := t.keys[key];
      assert AllStored(u.values, ids) <==> AllStored(t.values, ids) by {
        assert forall j :: 0 <= j < |ids| ==> ids[j] in ids;
      }
      if AllStored(t.values, ids) {
        assert Lookup(u.values, ids) == Lookup(t.values, ids) by {
          assert forall j :: 0 <= j < |ids| ==> ids[j] in ids;
        }
      }
    }
  }

  /** Overwrite leaves no old fragment behind: each surviving old ID is one of the new entry's fragments. */
  lemma OverwriteLeavesNoOldFragment<T>(t: Tables<T>, key: string, frags: seq<Js<T>>)
    requires key in t.keys && Write(t, key, frags).Success?
    ensures var w := Write(t, key, frags).value;
      forall id :: id in t.keys[key] && id in w.values ==>
        id in w.keys[key] && exists i :: 0 <= i < |frags| && id == FragId(key, i) && w.values[id] == frags[i]
  {
    var w := Write(t, key, frags).value;
    RecordMapOfRecords(key, frags);
    var added := RecordMap(Records(key, frags));
    forall id | id in t.keys[key] && id in w.values
      ensures id in w.keys[key] && exists i :: 0 <= i < |frags| && id == FragId(key, i) && w.values[id] == frags[i]
    {
      assert id in added;
      var i :| 0 <= i < |frags| && FragIds(key, |frags|)[i] == id;
      assert FragId(key, i) == id;
      assert w.values[id] == frags[i];
    }
  }

  /** In consistent tables, IDs referenced by two different keys never coincide. */
  lemma DisjointEntries<T>(t: Tables<T>, k1: string, k2: string, id: string)
    requires WellFormed(t) && k1 in t.keys && k2 in t.keys && id in t.keys[k1] && id in t.keys[k2]
    ensures k1 == k2
  {
    var i :| 0 <= i < |t.keys[k1]| && t.keys[k1][i] == id;
    var j :| 0 <= j < |t.keys[k2]| && t.keys[k2][j] == id;
    FragIdsOwned(k1, |t.keys[k1]|, i, k2, |t.keys[k2]|, j);
  }

  /** From consistent tables, `set(key, ...)` changes what `get` returns for no other key. */
  lemma SetFrame<T>(t: Tables<T>, key: string, frags: seq<Js<T>>, join: seq<Js<T>> -> Js<T>, other: string)
    requires Consistent(t) && other != key
    ensures Write(t, key, frags).Success?
    ensures GetSpec(Write(t, key, frags).value, other, join) == GetSpec(t, other, join)
  {
    WriteSucceeds(t, key, frags);
    var w := Write(t, key, frags).value;
    RecordMapOfRecords(key, frags);
    var added := RecordMap(Records(key, frags));
    if other in t.keys {
      forall id | id in t.keys[other]
        ensures (id in w.values <==> id in t.values) && (id in t.values ==> w.values[id] == t.values[id])
      {
        if key in t.keys && id in t.keys[key] {
          DisjointEntries(t, key, other, id);
        }
      }
    }
    GetReadsOnlyItsEntry(t, w, other, join);
  }

  /** After `delete(key)`, `get(key)` answers null. */
  lemma DeleteThenGet<T>(t: Tables<T>, key: string, join: seq<Js<T>> -> Js<T>)
    ensures key !in DeleteEntry(t, key).keys
    ensures GetSpec(DeleteEntry(t, key), key, join) == Success(Null)
  {
  }

  /** In consistent tables, `delete(key)` changes what `get` returns for no other key. */
  lemma DeleteFrame<T>(t: Tables<T>, key: string, join: seq<Js<T>> -> Js<T>, other: string)
    requires Consistent(t) && other != key
    ensures GetSpec(DeleteEntry(t, key), other, join) == GetSpec(t, other, join)
  {
    var d := DeleteEntry(t, key);
    if key in t.keys && other in t.keys {
      forall id | id in t.keys[other]
        ensures (id in d.values <==> id in t.values) && (id in t.values ==> d.values[id] == t.values[id])
      {
        if id in t.keys[key] {
          DisjointEntries(t, key, other, id);
        }
      }
    }
    GetReadsOnlyItsEntry(t, d, other, join);
  }

  /** Removing one referenced row makes `get` of its key fail, with the manifest untouched. */
  lemma MissingFragmentFails<T>(t: Tables<T>, key: string, id: string, join: seq<Js<T>> -> Js<T>)
    requires key in t.keys && id in t.keys[key]
    ensures GetSpec(Tables(t.keys, t.values - {id}), key, join) == Failure(FragmentMissing)
  {
    var ids := t.keys[key];
    var j :| 0 <= j < |ids| && ids[j] == id;
    assert !AllStored(t.values - {id}, ids);
  }

  /** In consistent tables, every stored row is referenced by exactly one entry, at exactly one position. */
  lemma ExactlyOneOwner<T>(t: Tables<T>, id: string)
    requires Consistent(t) && id in t.values
    ensures exists k :: k in t.keys && id in t.keys[k]
    ensures forall k1, k2 :: k1 in t.keys && k2 in t.keys && id in t.keys[k1] && id in t.keys[k2] ==> k1 == k2
    ensures forall k, i, j :: k in t.keys && 0 <= i < j < |t.keys[k]| ==> t.keys[k][i] != t.keys[k][j]
  {
    forall k1, k2 | k1 in t.keys && k2 in t.keys && id in t.keys[k1] && id in t.keys[k2]
      ensures k1 == k2
    {
      DisjointEntries(t, k1, k2, id);
    }
    forall k, i, j | k in t.keys && 0 <= i < j < |t.keys[k]|
      ensures t.keys[k][i] != t.keys[k][j]
    {
      FragIdsDistinct(k, |t.keys[k]|);
    }
  }

  lemma ReplaceEntryKeys(m: map<string, seq<string>>, key: string, ids: seq<string>)
    ensures (m - {key})[key := ids].Keys == m.Keys + {key}
    ensures |(m - {key})[key := ids]| == |m| + (if key in m then 0 else 1)
  {
    var r := m - {key};
    assert r.Keys == m.Keys - {key};
    if key in m {
      assert |m.Keys - {key}| == |m.Keys| - 1;
    } else {
      assert m.Keys - {key} == m.Keys;
    }
    assert |r[key := ids]| == |r| + 1;
  }

  /** `set` adds its key to the key table and touches no other key; `size` grows by one only for a new key. */
  lemma SetKeys<T>(t: Tables<T>, key: string, frags: seq<Js<T>>)
    requires Write(t, key, frags).Success?
    ensures Write(t, key, frags).value.keys.Keys == t.keys.Keys + {key}
    ensures |Write(t, key, frags).value.keys| == |t.keys| + (if key in t.keys then 0 else 1)
  {
    var ids := FragIds(key, |frags|);
    var w := Write(t, key, frags).value;
    assert w.keys == (t.keys - {key})[key := ids] by {
      assert DeleteEntry(t, key).keys == t.keys - {key};
    }
    ReplaceEntryKeys(t.keys, key, ids);
  }

  /** `delete` removes exactly its key from the key table; `size` shrinks by one only if it was present. */
  lemma DeleteKeys<T>(t: Tables<T>, key: string)
    ensures DeleteEntry(t, key).keys.Keys == t.keys.Keys - {key}
    ensures |DeleteEntry(t, key).keys| == |t.keys| - (if key in t.keys then 1 else 0)
  {
    var d := DeleteEntry(t, key);
    if key in t.keys {
      assert d.keys.Keys == t.keys.Keys - {key};
      assert |t.keys.Keys - {key}| == |t.keys.Keys| - 1;
    } else {
      assert d.keys.Keys == t.keys.Keys - {key};
    }
  }

  // ------------------------------------------------- the guard of `set`

  /** As written, the guard of `set` rejects no value. */
  lemma GuardAsWrittenNeverRejects<T>(v: Js<T>)
    ensures !GuardAsWritten(v)
  {
  }

  /**
   * As written, `set(key, null)` goes through, and afterwards `get(key)`
   * answers null, which is also its answer for a key that has no entry.
   */
  lemma NullSetLooksAbsent<T>(t: Tables<T>, key: string)
    requires Write(t, key, DefaultSplit<T>(Null)).Success?
    ensures !GuardAsWritten<T>(Null)
    ensures key in Write(t, key, DefaultSplit<T>(Null)).value.keys
    ensures GetSpec(Write(t, key, DefaultSplit<T>(Null)).value, key, DefaultJoin) == Success(Null)
    ensures forall absent :: absent !in t.keys ==> GetSpec(t, absent, DefaultJoin) == Success(Null)
  {
    SetThenGet(t, key, DefaultSplit(Null), DefaultJoin);
  }

  /**
   * With the guard as intended, a value `set` with the default codec never
   * reads back as null or undefined, so a null from `get` always means the
   * key is absent.
   */
  lemma SetNeverStoresNullOrUndefined<T>(t: Tables<T>, key: string, value: Js<T>)
    requires SetSpec(t, key, value, DefaultCodec<T>().split).Success?
    ensures var r := GetSpec(SetSpec(t, key, value, DefaultCodec<T>().split).value, key, DefaultCodec<T>().join);
      r.Success? && !InvalidValue(r.value)
  {
    SetThenGet(t, key, DefaultSplit(value), DefaultJoin);
  }
}
