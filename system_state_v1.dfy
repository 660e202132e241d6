/**
 * The `system_state` key/value table of the rusqlite generation
 * (src/db/system_state.rs, and its older copy in src/db.rs).
 */
module SystemStateV1 {
  import opened Wrappers
  import opened Sorting
  import opened StoreV1

  /** get_system_state_value: `SELECT value FROM system_state WHERE key = ?`, `None` when no row matches. */
  function StateValue(rows: seq<StateRow>, key: string): (r: Option<string>)
    ensures r.None? <==> forall i :: 0 <= i < |rows| ==> rows[i].key != key
    ensures r.Some? ==> exists i :: 0 <= i < |rows| && rows[i] == StateRow(key, r.value)
  {
    match FirstIndex(rows, (row: StateRow) => row.key == key)
    case Some(i) => Some(rows[i].value)
    case None => None
  }

  /**
   * `INSERT ... ON CONFLICT(key) DO UPDATE SET value = excluded.value`: the
   * row holding the key gets the new value in place, or a row is added.
   */
  function Upsert(rows: seq<StateRow>, key: string, value: string): (r: seq<StateRow>)
    ensures StateValue(rows, key).Some? ==> |r| == |rows|
    ensures StateValue(rows, key).None? ==> |r| == |rows| + 1
  {
    match FirstIndex(rows, (row: StateRow) => row.key == key)
    case Some(i) => rows[i := StateRow(key, value)]
    case None => rows + [StateRow(key, value)]
  }

  /** set_system_state_value */
  method SetSystemStateValue(db: Store, key: string, value: string)
    modifies db
    ensures db.systemState == Upsert(old(db.systemState), key, value)
    ensures db.envelopes == old(db.envelopes) && db.transactions == old(db.transactions) && db.products == old(db.products)
    ensures old(db.Valid()) ==> db.Valid()
  {
    ghost var before := db.systemState;
    var found := FirstIndex(db.systemState, (row: StateRow) => row.key == key);
    if found.Some? {
      db.systemState := db.systemState[found.value := StateRow(key, value)];
    } else {
      db.systemState := db.systemState + [StateRow(key, value)];
    }
    if old(db.Valid()) {
      UpsertKeepsKeysUnique(before, key, value);
    }
  }

  /** After a set, a get of that key returns the value just written. */
  lemma GetAfterSet(rows: seq<StateRow>, key: string, value: string)
    requires StateValid(rows)
    ensures StateValue(Upsert(rows, key, value), key) == Some(value)
  {
    var r := Upsert(rows, key, value);
    UpsertKeepsKeysUnique(rows, key, value);
    var found := FirstIndex(rows, (row: StateRow) => row.key == key);
    var i := if found.Some? then found.value else |rows|;
    assert r[i] == StateRow(key, value);
    var v := StateValue(r, key);
    assert v.Some?;
    var j :| 0 <= j < |r| && r[j] == StateRow(key, v.value);
    assert i == j;
  }

  /** A set leaves every other key's value as it was. */
  lemma SetKeepsOtherKeys(rows: seq<StateRow>, key: string, value: string, other: string)
    requires other != key
    ensures StateValue(Upsert(rows, key, value), other) == StateValue(rows, other)
  {
    var r := Upsert(rows, key, value);
    var found := FirstIndex(rows, (row: StateRow) => row.key == key);
    if found.Some? {
      forall j | 0 <= j < |r| ensures (r[j].key == other) == (rows[j].key == other) && (r[j].key == other ==> r[j] == rows[j]) {
      }
    } else {
      assert r == rows + [StateRow(key, value)];
      assert forall j :: 0 <= j < |rows| ==> r[j] == rows[j];
    }
    var fa := FirstIndex(r, (row: StateRow) => row.key == other);
    var fb := FirstIndex(rows, (row: StateRow) => row.key == other);
    if fb.Some? {
      assert r[fb.value].key == other;
    }
    if fa.Some? {
      assert fa.value < |rows|;
    }
  }

  /** Upserting never creates a second row for a key: the primary key stays unique. */
  lemma UpsertKeepsKeysUnique(rows: seq<StateRow>, key: string, value: string)
    requires StateValid(rows)
    ensures StateValid(Upsert(rows, key, value))
  {
    var r := Upsert(rows, key, value);
    var found := FirstIndex(rows, (row: StateRow) => row.key == key);
    if found.Some? {
      forall i, j | 0 <= i < j < |r| ensures r[i].key != r[j].key {
        assert r[i].key == rows[i].key && r[j].key == rows[j].key;
      }
    }
  }
}
