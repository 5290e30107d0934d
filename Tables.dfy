/**
 * The two tables of a DMap, as values, and the state machine the map's
 * operations follow over them. The key table (the manifest) maps a key to
 * the ordered IDs of its fragments; the value table maps a fragment ID to
 * that fragment's data. Each function below is one atomic transaction.
 */
module Tables {
  import opened Wrappers
  import opened Values
  import opened FragmentIds

  /** One row of the value table: `{ fragID, data }`. */
  datatype Record<T> = Record(fragID: string, data: Js<T>)

  datatype Tables<T> = Tables(keys: map<string, seq<string>>, values: map<string, Js<T>>)

  function Empty<T>(): Tables<T> {
    Tables(map[], map[])
  }

  /** Every manifest entry lists exactly the IDs `set` derives for its key. */
  predicate WellFormed<T>(t: Tables<T>) {
    forall k :: k in t.keys ==> t.keys[k] == FragIds(k, |t.keys[k]|)
  }

  /** No manifest entry references a fragment that is not stored. */
  predicate NoDangling<T>(t: Tables<T>) {
    forall k, id :: k in t.keys && id in t.keys[k] ==> id in t.values
  }

  /** No stored fragment lacks a manifest entry that references it. */
  predicate NoOrphans<T>(t: Tables<T>) {
    forall id :: id in t.values ==> exists k :: k in t.keys && id in t.keys[k]
  }

  /** The consistency invariant the mutating operations preserve. */
  predicate Consistent<T>(t: Tables<T>) {
    WellFormed(t) && NoDangling(t) && NoOrphans(t)
  }

  function FragSet(ids: seq<string>): set<string> {
    set id | id in ids
  }

  // ---------------------------------------------------------------- set

  /** The guard of `set` as written: a value is rejected when it is undefined AND null. */
  predicate GuardAsWritten<T>(v: Js<T>) {
    v.Undefined? && v.Null?
  }

  /** The guard of `set` as its error message states it: undefined OR null. */
  predicate InvalidValue<T>(v: Js<T>) {
    v.Undefined? || v.Null?
  }

  /** The rows `set` bulk-adds for the fragments of key: fragment i under FragId(key, i). */
  function Records<T>(key: string, frags: seq<Js<T>>): (recs: seq<Record<T>>)
    ensures |recs| == |frags|
    ensures forall i :: 0 <= i < |frags| ==> recs[i] == Record(FragIds(key, |frags|)[i], frags[i])
  {
    seq(|frags|, i requires 0 <= i < |frags| => Record(FragId(key, i), frags[i]))
  }

  /** The value-table rows that adding recs one after the other produces. */
  function RecordMap<T>(recs: seq<Record<T>>): (m: map<string, Js<T>>)
    ensures forall id :: id in m <==> exists j :: 0 <= j < |recs| && recs[j].fragID == id
    decreases |recs|
  {
    if recs == [] then map[]
    else
      var last := recs[|recs| - 1];
      RecordMap(recs[..|recs| - 1])[last.fragID := last.data]
  }

  /** The rows `set` adds store fragment i under FragId(key, i), and nothing else. */
  lemma {:induction false} RecordMapOfRecords<T>(key: string, frags: seq<Js<T>>)
    ensures forall i :: 0 <= i < |frags| ==>
      FragId(key, i) in RecordMap(Records(key, frags)) && RecordMap(Records(key, frags))[FragId(key, i)] == frags[i]
    ensures forall id :: id in RecordMap(Records(key, frags)) ==> id in FragIds(key, |frags|)
    decreases |frags|
  {
    var recs := Records(key, frags);
    var m := RecordMap(recs);
    forall id | id in m
      ensures id in FragIds(key, |frags|)
    {
      var j :| 0 <= j < |recs| && recs[j].fragID == id;
      assert FragIds(key, |frags|)[j] == id;
    }
    if frags != [] {
      var n := |frags| - 1;
      var front := frags[..n];
      assert recs[..n] == Records(key, front);
      RecordMapOfRecords(key, front);
      forall i | 0 <= i < |frags|
        ensures FragId(key, i) in m && m[FragId(key, i)] == frags[i]
      {
        if i < n {
          if FragId(key, i) == FragId(key, n) {
            FragIdInjective(key, i, key, n);
          }
          assert front[i] == frags[i];
        }
      }
    }
  }

  /** bulkAdd fails when one of the rows to add has an ID that is already stored. */
  predicate Collides<T>(values: map<string, Js<T>>, recs: seq<Record<T>>): (b: bool)
    ensures b <==> exists id :: id in values && id in RecordMap(recs)
  {
    exists j :: 0 <= j < |recs| && recs[j].fragID in values
  }

  /**
   * The transaction of `set` once the value has been split: delete the old
   * entry and its fragments, add the new fragments, add the new entry. A
   * failing bulkAdd aborts the transaction, so nothing changes.
   */
  function Write<T>(t: Tables<T>, key: string, frags: seq<Js<T>>): (r: Result<Tables<T>, Error>)
    ensures r.Failure? ==> r.error == ConstraintError
    ensures r.Failure? <==> exists i :: 0 <= i < |frags| && FragId(key, i) in DeleteEntry(t, key).values
    ensures r.Success? ==> r.value.keys == (t.keys - {key})[key := FragIds(key, |frags|)]
    ensures r.Success? ==> forall i :: 0 <= i < |frags| ==>
      FragId(key, i) in r.value.values && r.value.values[FragId(key, i)] == frags[i]
    ensures r.Success? ==> forall id :: id in r.value.values <==> id in DeleteEntry(t, key).values || id in FragIds(key, |frags|)
    ensures r.Success? ==> forall id :: id in DeleteEntry(t, key).values ==> r.value.values[id] == DeleteEntry(t, key).values[id]
  {
    RecordMapOfRecords(key, frags);
    var cleared := DeleteEntry(t, key);
    var recs := Records(key, frags);
    if Collides(cleared.values, recs) then Failure(ConstraintError)
    else Success(Tables(cleared.keys[key := FragIds(key, |frags|)], cleared.values + RecordMap(recs)))
  }

  /** `set(key, value)` with the codec's split, and the guard as intended. */
  function SetSpec<T>(t: Tables<T>, key: string, value: Js<T>, split: Js<T> -> seq<Js<T>>): (r: Result<Tables<T>, Error>)
    ensures (r.Failure? && r.error == ValueInvalid) <==> InvalidValue(value)
    ensures r.Failure? ==> r.error == ValueInvalid || r.error == ConstraintError
    ensures r.Success? ==> key in r.value.keys && r.value.keys[key] == FragIds(key, |split(value)|)
    ensures r.Success? ==> forall i :: 0 <= i < |split(value)| ==>
      FragId(key, i) in r.value.values && r.value.values[FragId(key, i)] == split(value)[i]
  {
    if InvalidValue(value) then Failure(ValueInvalid) else Write(t, key, split(value))
  }

  // ------------------------------------------------------------- delete

  /** `delete(key)`: drop the fragments the entry references, then the entry. */
  function DeleteEntry<T>(t: Tables<T>, key: string): (d: Tables<T>)
    ensures d.keys == t.keys - {key}
    ensures forall id :: id in d.values <==> id in t.values && !(key in t.keys && id in t.keys[key])
    ensures forall id :: id in d.values ==> d.values[id] == t.values[id]
  {
    if key !in t.keys then t
    else Tables(t.keys - {key}, t.values - FragSet(t.keys[key]))
  }

  // ---------------------------------------------------------------- get

  predicate AllStored<T>(values: map<string, Js<T>>, ids: seq<string>) {
    forall j :: 0 <= j < |ids| ==> ids[j] in values
  }

  /** The stored data of ids, in the order of ids. */
  function Lookup<T>(values: map<string, Js<T>>, ids: seq<string>): (frags: seq<Js<T>>)
    requires AllStored(values, ids)
    ensures |frags| == |ids| && forall j :: 0 <= j < |ids| ==> frags[j] == values[ids[j]]
  {
    seq(|ids|, j requires 0 <= j < |ids| => values[ids[j]])
  }

  /**
   * `get(key)`: `null` for an absent key; a failure when a referenced
   * fragment is missing; otherwise the join of the fragments in manifest order.
   */
  function GetSpec<T>(t: Tables<T>, key: string, join: seq<Js<T>> -> Js<T>): (r: Result<Js<T>, Error>)
    ensures key !in t.keys ==> r == Success(Null)
    ensures key in t.keys ==> (r.Failure? <==> exists j :: 0 <= j < |t.keys[key]| && t.keys[key][j] !in t.values)
    ensures r.Failure? ==> r.error == FragmentMissing
    ensures key in t.keys && r.Success? ==> AllStored(t.values, t.keys[key]) && r.value == join(Lookup(t.values, t.keys[key]))
  {
    if key !in t.keys then Success(Null)
    else if AllStored(t.values, t.keys[key]) then Success(join(Lookup(t.values, t.keys[key])))
    else Failure(FragmentMissing)
  }

  /**
   * What a query for the rows with the given IDs may return, in any order:
   * only stored rows with one of the IDs, and every stored row with one of them.
   */
  ghost predicate QueryResult<T>(values: map<string, Js<T>>, ids: seq<string>, objs: seq<Record<T>>) {
    && (forall o :: o in objs ==> o.fragID in ids && o.fragID in values && o.data == values[o.fragID])
    && (forall j :: 0 <= j < |ids| && ids[j] in values ==> exists o :: o in objs && o.fragID == ids[j])
  }

  /** The `anyOf(ids).toArray()` query over the value table; its order is not relied on. */
  function AnyOf<T>(values: map<string, Js<T>>, ids: seq<string>): (objs: seq<Record<T>>)
    ensures QueryResult(values, ids, objs)
    decreases |ids|
  {
    if ids == [] then []
    else
      var rest := AnyOf(values, ids[1..]);
      if ids[0] in values then [Record(ids[0], values[ids[0]])] + rest else rest
  }

  /** `objs.find(o => o.fragID === id)`: the first row with that ID, if any. */
  function Find<T>(objs: seq<Record<T>>, id: string): (r: Option<Record<T>>)
    ensures r.Some? ==> r.value.fragID == id && exists p :: 0 <= p < |objs| && objs[p] == r.value && forall q :: 0 <= q < p ==> objs[q].fragID != id
    ensures r.None? ==> forall o :: o in objs ==> o.fragID != id
    decreases |objs|
  {
    if objs == [] then None
    else if objs[0].fragID == id then
      Some(objs[0])
    else
      var r := Find(objs[1..], id);
      assert r.Some? ==> exists p :: 0 <= p < |objs| && objs[p] == r.value && forall q :: 0 <= q < p ==> objs[q].fragID != id by {
        if r.Some? {
          var p :| 0 <= p < |objs[1..]| && objs[1..][p] == r.value && forall q :: 0 <= q < p ==> objs[1..][q].fragID != id;
          assert objs[p + 1] == r.value;
          assert forall q :: 0 <= q < p + 1 ==> objs[q].fragID != id by {
            forall q | 0 <= q < p + 1 ensures objs[q].fragID != id {
              if q > 0 { assert objs[q] == objs[1..][q - 1]; }
            }
          }
        }
      }
      r
  }

  /**
   * The reordering loop of `get`: for each manifest ID in turn, find its row
   * among the query's results and take its data. A missing row makes `find`
   * yield undefined, and reading `.data` of it throws.
   */
  method Reassemble<T>(ghost values: map<string, Js<T>>, fragIds: seq<string>, objs: seq<Record<T>>)
    returns (r: Option<seq<Js<T>>>)
    requires QueryResult(values, fragIds, objs)
    ensures r.Some? <==> AllStored(values, fragIds)
    ensures r.Some? ==> r.value == Lookup(values, fragIds)
  {
    var frags: seq<Js<T>> := [];
    for i := 0 to |fragIds|
      invariant AllStored(values, fragIds[..i])
      invariant frags == Lookup(values, fragIds[..i])
    {
      var frag := Find(objs, fragIds[i]);
      if frag.None? {
        return None;
      }
      frags := frags + [frag.value.data];
    }
    assert fragIds[..|fragIds|] == fragIds;
    return Some(frags);
  }
}
