# DMap: a fragment-sharded key/value map, modelled in Dafny

`DMap` (src/DMap.ts) is a key/value map kept in an IndexedDB database through
Dexie. It uses two tables:

- the **key table** (the manifest) maps a key to the ordered list of its fragment IDs;
- the **value table** maps a fragment ID to that fragment's data.

`set` splits a value with a pluggable codec and deletes any existing entry for
the key. It then stores fragment `i` under the ID `"<key>-<i>"` and adds the
manifest entry. `get` reads the entry, queries its fragments, puts them back
in manifest order and joins them. `delete` removes the entry's fragments and
the entry. `has`, `size` and `clear` are simple queries and updates over the
two tables.

The project has seven modules:

- `Wrappers`: Option, Result and Outcome.
- `Values`: the JavaScript value domain `Js<T>` (`Undefined`, `Null` or an opaque payload) and the errors.
- `Codec`: the default `split`/`join` and the constructor's configuration step.
- `FragmentIds`: decimal numerals, the fragment-ID derivation and its injectivity.
- `Tables`: the two tables as a value and one function per transaction.
- `TableLemmas`: the properties of those transactions.
- `DMaps`: the `DMap` class. It holds the two tables as `map` fields. Its methods update them in place, build the fragment lists with loops, and are proved equal to the `Tables` functions.

The manifest/fragment invariant is `Tables.Consistent`. It has three parts:

- every entry lists exactly the IDs `set` derives for its key;
- every referenced fragment is stored;
- every stored fragment is referenced.

Fragment IDs are injective over (key, index) (`FragmentIds.FragIdInjective`). So from `Consistent` it follows that:

- every stored fragment has exactly one owner (`TableLemmas.ExactlyOneOwner`);
- `set` never meets a stored ID;
- `set` and `delete` leave every other key's `get` unchanged.

`DMaps.TwoKeyScenario` is a client that uses only the class contracts and these
lemmas. It sets two keys, reads one back, deletes it, and sees it reported
absent while the other key still reads back.

Keys are modelled by their string form, so two keys with the same string form are the same key here.

## Model

| member | source | states |
|---|---|---|
| `Codec.Configure` | src/DMap.ts:18-27 | fails with ConfigError exactly when the name is absent or empty; otherwise keeps a supplied split/join and fills in the default for a missing one |
| `Codec.DefaultSplit` | src/DMap.ts:23 | the default split makes one fragment, which is the value itself |
| `Codec.DefaultJoin` | src/DMap.ts:26 | the default join yields the first fragment, and undefined for an empty list |
| `Codec.DefaultRoundTrip` | src/DMap.ts:22-27 | the default codec reconstructs every value: `join(split(v)) == v` |
| `Codec.ConfiguredDefaultsRoundTrip` | src/DMap.ts:18-27 | a configuration with a name and no codec succeeds and yields a codec that round-trips every value |
| `FragmentIds.Decimal` | src/DMap.ts:72 | the numeral of a fragment index is non-empty and made of digits only, so it never contains '-' |
| `FragmentIds.ParseDecimalInvertsDecimal` | src/DMap.ts:72 | reading the numeral of n back gives n, so distinct indices get distinct numerals |
| `FragmentIds.LastDashEndsKey` | src/DMap.ts:72 | in `"<key>-<i>"` the character after the key is '-' and no later character is '-' |
| `FragmentIds.FragId` | src/DMap.ts:72 | a fragment ID is the key, then '-', then a non-empty run of digits |
| `FragmentIds.FragIds` | src/DMap.ts:69-73 | `set` lists one ID per fragment, and the ID at position i is `"<key>-<i>"` |
| `FragmentIds.FragIdInjective` | src/DMap.ts:71-72 | `"<s>-<i>" == "<t>-<j>"` only when s == t and i == j |
| `FragmentIds.FragIdsDistinct` | src/DMap.ts:69-73 | the IDs `set` derives for one key are pairwise distinct |
| `FragmentIds.FragIdsOwned` | src/DMap.ts:69-73 | an ID in the ID lists of two keys belongs to one key and one position |
| `Tables.Records` | src/DMap.ts:66-75 | one row per fragment, and row i pairs ID `"<key>-<i>"` with fragment i |
| `Tables.Collides` | src/DMap.ts:77 | bulkAdd is rejected exactly when some added ID is already stored |
| `Tables.DeleteEntry` | src/DMap.ts:102-109 | removes exactly the key's entry and the fragment IDs it lists; every other entry and row is unchanged |
| `Tables.Write` | src/DMap.ts:55-82 | the transaction body of set: fails with ConstraintError exactly when one of the new IDs is still stored after the old entry is deleted; on success the key lists its new IDs, each holding its fragment, and the rows kept from the deletion are unchanged |
| `Tables.SetSpec` | src/DMap.ts:45-85 | with the guard as its error message states it, set fails with ValueInvalid exactly when the value is undefined or null, and otherwise fails only with ConstraintError; on success the key lists the IDs of its split and each holds its fragment |
| `Tables.Lookup` | src/DMap.ts:148-152 | one fragment per listed ID, in the order of the entry, each the data stored under that ID |
| `Tables.GetSpec` | src/DMap.ts:119-159 | get yields null for an absent key; for a present key it fails, always with FragmentMissing, exactly when a listed ID is not stored, and otherwise yields the join of the fragments in entry order |
| `Tables.RecordMapOfRecords` | src/DMap.ts:69-77 | after bulkAdd, fragment i of the split is stored under `"<key>-<i>"`, and the rows added carry only the key's own IDs |
| `Tables.RecordMap` | src/DMap.ts:77 | an ID is added by bulkAdd exactly when one of the added rows has it |
| `Tables.AnyOf` | src/DMap.ts:135-138 | the query returns only stored rows whose ID the entry lists, and returns every such row |
| `Tables.Find` | src/DMap.ts:150 | `find` returns the first row of the list with the wanted ID, or nothing exactly when no row has it |
| `Tables.Reassemble` | src/DMap.ts:147-154 | for a query result in any order: succeeds exactly when every listed fragment is stored, and then yields the stored data in manifest order |
| `TableLemmas.DeletePreservesConsistent` | src/DMap.ts:102-109 | delete keeps the manifest/fragment invariant |
| `TableLemmas.OnlyOwnerStores` | src/DMap.ts:71-72 | in consistent tables without an entry for key, none of key's fragment IDs is stored |
| `TableLemmas.WriteSucceeds` | src/DMap.ts:55-81 | from consistent tables, set's bulkAdd never meets an ID that is still stored after the old entry is deleted |
| `TableLemmas.AddPreservesConsistent` | src/DMap.ts:77-81 | adding a fresh key's fragments and manifest entry keeps the invariant |
| `TableLemmas.WritePreservesConsistent` | src/DMap.ts:55-81 | from consistent tables, set always succeeds and keeps the invariant |
| `TableLemmas.SetThenGet` | src/DMap.ts:45-85 | whatever the prior tables, a successful `set(k, v)` whose split gave the fragments f, followed by `get(k)`, yields `join(f)`, so `join(split(v))` |
| `TableLemmas.SetThenGetDefault` | src/DMap.ts:22-27 | with the default codec and consistent tables, `set(k, v)` of a value that is neither null nor undefined succeeds, and `get(k)` then yields v |
| `TableLemmas.GetReadsOnlyItsEntry` | src/DMap.ts:119-159 | `get(k)` depends only on k's entry and the rows that entry names |
| `TableLemmas.OverwriteLeavesNoOldFragment` | src/DMap.ts:55-63 | after overwriting k, every old fragment ID of k that is still stored is one of the new entry's IDs and holds the new data |
| `TableLemmas.DisjointEntries` | src/DMap.ts:71-72 | two keys whose entries share a fragment ID are the same key |
| `TableLemmas.SetFrame` | src/DMap.ts:45-85 | from consistent tables, `set(k, ...)` succeeds and changes the result of `get` for no other key |
| `TableLemmas.DeleteThenGet` | src/DMap.ts:91-113 | after `delete(k)`, k has no entry and `get(k)` yields null |
| `TableLemmas.DeleteFrame` | src/DMap.ts:102-111 | in consistent tables, `delete(k)` changes the result of `get` for no other key |
| `TableLemmas.MissingFragmentFails` | src/DMap.ts:148-151 | removing one referenced row makes `get` of its key fail with FragmentMissing instead of returning a value |
| `TableLemmas.ExactlyOneOwner` | src/DMap.ts:72-81 | in consistent tables, each stored fragment is referenced by exactly one entry, at exactly one position |
| `TableLemmas.ReplaceEntryKeys` | src/DMap.ts:81 | replacing an entry adds exactly its key, and the count grows by one only for a new key |
| `TableLemmas.SetKeys` | src/DMap.ts:81 | a successful set adds its key to the key table; `size` grows by one only for a new key |
| `TableLemmas.DeleteKeys` | src/DMap.ts:109 | delete removes exactly its key; `size` shrinks by one only if the key was present |
| `TableLemmas.GuardAsWrittenNeverRejects` | src/DMap.ts:46-47 | the guard as written (`undefined && null`) rejects no value |
| `TableLemmas.NullSetLooksAbsent` | src/DMap.ts:46-47 | the guard as written lets null through; from any tables where the write succeeds, `set(k, null)` creates an entry for k and `get(k)` then answers null, exactly as for any absent key |
| `TableLemmas.SetNeverStoresNullOrUndefined` | src/DMap.ts:46-47 | with the intended guard and the default codec, a stored value never reads back as null or undefined |
| `DMaps.DMap.constructor` | src/DMap.ts:28-37 | the map keeps the given name and codec and opens with the tables the database holds |
| `DMaps.DMap.Open` | src/DMap.ts:18-38 | fails with ConfigError exactly when the name is missing; otherwise a fresh map with the given name, the configured codec and the stored tables |
| `DMaps.DMap.Set` | src/DMap.ts:45-85 | the new tables are exactly those of `SetSpec`; an aborted bulkAdd leaves both tables unchanged; from consistent tables it succeeds for every value except null/undefined and keeps the invariant |
| `DMaps.DMap.Delete` | src/DMap.ts:91-113 | returns whether the key was present; an absent key leaves both tables unchanged; otherwise exactly the entry and its fragment IDs are removed; keeps the invariant |
| `DMaps.DMap.Get` | src/DMap.ts:119-159 | yields null for an absent key, FragmentMissing when a referenced fragment is not stored, and otherwise the join of the fragments in manifest order |
| `DMaps.DMap.Has` | src/DMap.ts:165-177 | true exactly when the key has an entry in the key table; the value table plays no part |
| `DMaps.DMap.Size` | src/DMap.ts:197-201 | the number of key-table entries |
| `DMaps.DMap.Clear` | src/DMap.ts:182-185 | leaves both tables empty, which is consistent |
| `DMaps.DMap.ClearKeyTable` | src/DMap.ts:183 | empties the key table and keeps the value table; in between the two steps no entry references a missing fragment |
| `DMaps.DMap.ClearValueTable` | src/DMap.ts:184 | empties the value table and keeps the key table |

Facts about the code that shape the model:

- `key` is the key table's primary key (src/DMap.ts:32), so a key has at most one entry and `get` makes no duplicate-entry check.
- There is one value table, keyed by `fragID` (src/DMap.ts:33).
- `clear` runs two separate clears, `keyTable.clear()` and then `valueTable.clear()`, outside any transaction (src/DMap.ts:183-184).
- A fragment that `find` does not return makes `frag.data` throw (src/DMap.ts:150-151). This is modelled as the error `FragmentMissing`.

## Left out

- The Dexie library (schema declaration, table handles, `where/equals/anyOf` plumbing, `bulkAdd`/`bulkDelete` internals) is modelled only by its effect on the two maps. Each transaction is one atomic step.
- Asynchrony and promises are left out, and so is the nested transaction that `set` opens by calling `delete`. These are runtime plumbing.
- Logging (`console.log`/`console.error`) is diagnostics only.
- `close()` only releases the storage handle.
- The stubs `forEach`, `entries`, `keys` and `values` have no behaviour.
- The database content present when the map is constructed is a parameter (`stored`) of `DMaps.DMap.Open`, since it comes from persistent storage.
- Non-string keys are left out: JavaScript turns a key into a string for the fragment ID by template-literal coercion. Keys are strings here. Distinct keys with the same string form would collide.
- User-supplied `split`/`join` are arbitrary total functions. A codec that throws is not modelled.
- The integrity filter `_objs.filter(obj => !!obj)` and its early `return null` (src/DMap.ts:141-145) are not modelled as code. The query only returns stored records, which are never falsy, so the filter removes nothing and the branch cannot run.
- Two failure branches are not modelled because they cannot happen. `add` of the manifest entry never fails, since the entry was just deleted. A `bulkAdd` never sees a duplicate ID within one batch, by `FragmentIds.FragIdsDistinct`.
- Dexie's `bulkAdd` adds the non-conflicting rows before rejecting. The rejection then aborts the transaction, so the model's all-or-nothing failure has the same net effect.
- `FragmentIds.Decimal`: does not model JavaScript's exponent notation for numbers of 1e21 and above. An array index never reaches that.
- `DMaps.DMap.Open`: copies the codec into the map when it is opened. The code writes the default split/join into the caller's config object (src/DMap.ts:23, 26) and keeps a reference to that object (src/DMap.ts:28). So a later change to `config.split` or `config.join` by the caller changes the codec that `set` and `get` use (src/DMap.ts:49, 158). That aliasing is not modelled.
- `Tables.SetSpec`: applies the intended guard `InvalidValue` (reject undefined or null, as the error message says). The code as written (src/DMap.ts:46) accepts every value; that path is `Tables.Write` after `GuardAsWritten`, see `TableLemmas.NullSetLooksAbsent` and Findings.
- `DMaps.DMap.Set`: uses the guard as its error message states it (reject undefined or null). The code as written accepts every value; see Findings.
- `DMaps.DMap.Set`: returns an Outcome where the source returns the map itself for chaining.

## Findings

| source | as written | input that shows it | evidently intended | confidence | as-written member | corrected member |
|---|---|---|---|---|---|---|
| src/DMap.ts:46-47 | `value === undefined && value === null` | `set("a", null)`: accepted, then `get("a")` answers `null` as for an absent key | reject when `value === undefined` or when `value === null`, as the error message says | high, not executed | `TableLemmas.NullSetLooksAbsent` | `TableLemmas.SetNeverStoresNullOrUndefined` |
