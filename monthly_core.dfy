/**
 * The monthly update of the sea-orm generation (src/core/monthly.rs): the
 * last processed date kept in `system_state`, the once-per-month test, and
 * the atomic pass that rolls over or resets every active envelope.
 */
module MonthlyCore {
  import opened Wrappers
  import opened Sorting
  import opened Calendar
  import opened StoreV2

  /** The `system_state` key holding the last update date. */
  const LastMonthlyUpdateKey := "last_monthly_update"

  /** The fixed part of the error for a stored date that does not parse. */
  const ParseFailurePrefix := "Failed to parse last update date: "

  function KeyIs(key: string): StateRow -> bool
  {
    (row: StateRow) => row.key == key
  }

  // ----- the stored date -----

  /**
   * get_last_monthly_update_date: the first row with the key (`.one()`),
   * its value parsed as `%Y-%m-%d`; no row means no update yet.
   */
  function LastUpdateDate(rows: seq<StateRow>): (r: Result<Option<Date>, Error>)
    ensures r == Ok(None) <==> forall i :: 0 <= i < |rows| ==> rows[i].key != LastMonthlyUpdateKey
    ensures r.Ok? && r.value.Some? ==>
      && IsValid(r.value.value) && InSqlRange(r.value.value)
      && exists i :: 0 <= i < |rows| && rows[i].key == LastMonthlyUpdateKey && rows[i].value == FormatDate(r.value.value)
    ensures r.Err? ==>
      && r.error.Config? && |r.error.message| >= |ParseFailurePrefix| && r.error.message[..|ParseFailurePrefix|] == ParseFailurePrefix
      && exists i :: 0 <= i < |rows| && rows[i].key == LastMonthlyUpdateKey && ParseDate(rows[i].value).None?
  {
    match FirstIndex(rows, KeyIs(LastMonthlyUpdateKey))
    case None => Ok(None)
    case Some(i) =>
      match ParseDate(rows[i].value)
      case Some(d) => ParseSound(rows[i].value); Ok(Some(d))
      case None => Err(Config(ParseFailurePrefix))
  }

  /**
   * is_monthly_update_needed: needed when no date is stored, or the stored
   * date lies in another calendar month (year or month differs) than `now`.
   */
  function UpdateNeeded(rows: seq<StateRow>, now: Date): (r: Result<bool, Error>)
    ensures r.Err? <==> LastUpdateDate(rows).Err?
    ensures r.Err? ==> r.error == LastUpdateDate(rows).error
    ensures r == Ok(false) <==>
      exists d: Date :: LastUpdateDate(rows) == Ok(Some(d)) && d.year == now.year && d.month == now.month
  {
    match LastUpdateDate(rows)
    case Err(e) => Err(e)
    case Ok(None) => Ok(true)
    case Ok(Some(d)) => Ok(d.year != now.year || d.month != now.month)
  }

  /**
   * set_last_monthly_update_date: the first row with the key gets the new
   * value; without one a row is inserted under the next id (the key column
   * has no unique constraint, the primary key is `id`).
   */
  function SetDate(t: Table<StateRow>, date: Date): Table<StateRow>
  {
    match FirstIndex(t.rows, KeyIs(LastMonthlyUpdateKey))
    case Some(i) => t.(rows := t.rows[i := t.rows[i].(value := FormatDate(date))])
    case None =>
      Table(t.rows + [StateRow(t.nextId, LastMonthlyUpdateKey, FormatDate(date))], t.nextId + 1)
  }

  lemma NoneCounted(rows: seq<StateRow>, p: StateRow -> bool)
    requires FirstIndex(rows, p).None?
    ensures Count(rows, p) == 0
  {
    FilterCount(rows, p);
  }

  method SetLastMonthlyUpdateDate(db: Store, date: Date)
    modifies db
    ensures db.systemState == SetDate(old(db.systemState), date)
    ensures db.envelopes == old(db.envelopes) && db.transactions == old(db.transactions) && db.products == old(db.products)
    ensures old(db.Valid()) ==> db.Valid()
  {
    ghost var t0 := db.systemState;
    var existing := FirstIndex(db.systemState.rows, KeyIs(LastMonthlyUpdateKey));
    if existing.Some? {
      var i := existing.value;
      db.systemState := db.systemState.(rows := db.systemState.rows[i := db.systemState.rows[i].(value := FormatDate(date))]);
    } else {
      var row := StateRow(db.systemState.nextId, LastMonthlyUpdateKey, FormatDate(date));
      db.systemState := Table(db.systemState.rows + [row], db.systemState.nextId + 1);
    }
    if old(db.Valid()) {
      SetDateKeepsIds(t0, date);
    }
  }

  /** Writing the date keeps the primary keys unique and below the next id. */
  lemma SetDateKeepsIds(t: Table<StateRow>, date: Date)
    requires StateIdsValid(t)
    ensures StateIdsValid(SetDate(t, date))
  {
  }

  /** A date written is the date read back. */
  lemma DateRoundTrip(t: Table<StateRow>, date: Date)
    requires IsValid(date) && InSqlRange(date)
    ensures LastUpdateDate(SetDate(t, date).rows) == Ok(Some(date))
  {
    var p := KeyIs(LastMonthlyUpdateKey);
    var r := SetDate(t, date).rows;
    var f := FirstIndex(t.rows, p);
    var i := if f.Some? then f.value else |t.rows|;
    assert r[i].key == LastMonthlyUpdateKey && r[i].value == FormatDate(date);
    assert forall j :: 0 <= j < i ==> r[j] == t.rows[j];
    var g := FirstIndex(r, p);
    assert g.Some? && g.value == i;
    ParseFormat(date);
  }

  /** Writing the date never adds a second row for the key: a first write makes one, any later write keeps the count. */
  lemma SetDateKeepsOneRow(t: Table<StateRow>, date: Date)
    ensures Count(SetDate(t, date).rows, KeyIs(LastMonthlyUpdateKey)) ==
      if Count(t.rows, KeyIs(LastMonthlyUpdateKey)) == 0 then 1 else Count(t.rows, KeyIs(LastMonthlyUpdateKey))
  {
    var p := KeyIs(LastMonthlyUpdateKey);
    match FirstIndex(t.rows, p)
    case Some(i) =>
      CountUpdate(t.rows, i, t.rows[i].(value := FormatDate(date)), p);
      assert p(t.rows[i]);
      CountPositive(t.rows, i, p);
    case None =>
      NoneCounted(t.rows, p);
      CountAppend(t.rows, StateRow(t.nextId, LastMonthlyUpdateKey, FormatDate(date)), p);
  }

  lemma {:induction false} CountPositive(rows: seq<StateRow>, i: nat, p: StateRow -> bool)
    requires i < |rows| && p(rows[i])
    ensures Count(rows, p) > 0
  {
    if i > 0 {
      CountPositive(rows[1..], i - 1, p);
    }
  }

  /**
   * Once a date is written, a later check asks for another update exactly
   * when the later date is in another calendar month.
   */
  lemma UpdateOncePerMonth(t: Table<StateRow>, done: Date, later: Date)
    requires IsValid(done) && InSqlRange(done)
    ensures UpdateNeeded(SetDate(t, done).rows, later) == Ok(done.year != later.year || done.month != later.month)
  {
    DateRoundTrip(t, done);
  }

  // ----- the balance pass -----

  /** The new balance: rollover adds the allocation to the balance, otherwise the balance resets to it. */
  function RolledBalance(e: Envelope): real
  {
    if e.rollover then e.balance + e.allocation else e.allocation
  }

  /** An `UPDATE envelopes SET balance = ? WHERE id = ?` */
  function SetBalance(rows: seq<Envelope>, id: nat, balance: real): (r: seq<Envelope>)
    ensures |r| == |rows|
    ensures forall i :: 0 <= i < |rows| ==> r[i] == if rows[i].id == id then rows[i].(balance := balance) else rows[i]
  {
    seq(|rows|, i requires 0 <= i < |rows| => if rows[i].id == id then rows[i].(balance := balance) else rows[i])
  }

  /** The envelopes the pass visits: `is_deleted = false`, in table order (the query has no ORDER BY). */
  function ActiveInOrder(rows: seq<Envelope>): (r: seq<Envelope>)
    ensures forall e :: e in r <==> e in rows && !e.isDeleted
    ensures |r| == Count(rows, (e: Envelope) => !e.isDeleted)
  {
    FilterCount(rows, (e: Envelope) => !e.isDeleted);
    Filter(rows, (e: Envelope) => !e.isDeleted)
  }

  /** The balance writes of the pass, in order, each computed from the row as listed. */
  function RollAll(rows: seq<Envelope>, list: seq<Envelope>): (r: seq<Envelope>)
    ensures |r| == |rows|
    decreases |list|
  {
    if list == [] then rows
    else
      var last := list[|list| - 1];
      SetBalance(RollAll(rows, list[..|list| - 1]), last.id, RolledBalance(last))
  }

  /** `EnvelopeUpdateResult` */
  datatype EnvelopeUpdate = EnvelopeUpdate(envelopeName: string, oldBalance: real, newBalance: real, allocation: real, rollover: bool)

  /** `MonthlyUpdateResult` */
  datatype MonthlyUpdate = MonthlyUpdate(
    updatedEnvelopes: seq<EnvelopeUpdate>,
    totalProcessed: nat,
    rolloverCount: nat,
    resetCount: nat,
    updateDate: Date)

  function UpdateOf(e: Envelope): EnvelopeUpdate
  {
    EnvelopeUpdate(e.name, e.balance, RolledBalance(e), e.allocation, e.rollover)
  }

  function Rolls(): Envelope -> bool
  {
    (e: Envelope) => e.rollover
  }

  function Resets(): Envelope -> bool
  {
    (e: Envelope) => !e.rollover
  }

  /** The report of a pass over `list` on `date`. */
  function Summary(list: seq<Envelope>, date: Date): MonthlyUpdate
  {
    MonthlyUpdate(Updates(list), |list|, Count(list, Rolls()), Count(list, Resets()), date)
  }

  function Updates(list: seq<Envelope>): seq<EnvelopeUpdate>
  {
    seq(|list|, i requires 0 <= i < |list| => UpdateOf(list[i]))
  }

  /** A store error at statement `k` of the transaction: the balance writes are 0 to n - 1, the date write n, the commit n + 1. */
  predicate FailsWithin(failAt: Option<nat>, n: nat)
  {
    failAt.Some? && failAt.value <= n + 1
  }

  /**
   * process_monthly_updates: when an update is needed, one database
   * transaction writes every active envelope's new balance and then the
   * date; a store error anywhere rolls all of it back. `failAt` stands for
   * that error (see FailsWithin).
   */
  method ProcessMonthlyUpdates(db: Store, now: Date, failAt: Option<nat>) returns (r: Result<Option<MonthlyUpdate>, Error>)
    modifies db
    ensures UpdateNeeded(old(db.systemState.rows), now).Err? ==>
      r == Err(UpdateNeeded(old(db.systemState.rows), now).error)
      && db.envelopes == old(db.envelopes) && db.systemState == old(db.systemState)
    ensures UpdateNeeded(old(db.systemState.rows), now) == Ok(false) ==>
      r == Ok(None) && db.envelopes == old(db.envelopes) && db.systemState == old(db.systemState)
    ensures UpdateNeeded(old(db.systemState.rows), now) == Ok(true) && FailsWithin(failAt, |ActiveInOrder(old(db.envelopes.rows))|) ==>
      r == Err(Database) && db.envelopes == old(db.envelopes) && db.systemState == old(db.systemState)
    ensures UpdateNeeded(old(db.systemState.rows), now) == Ok(true) && !FailsWithin(failAt, |ActiveInOrder(old(db.envelopes.rows))|) ==>
      var list := ActiveInOrder(old(db.envelopes.rows));
      && r == Ok(Some(Summary(list, now)))
      && db.envelopes == old(db.envelopes).(rows := RollAll(old(db.envelopes.rows), list))
      && db.systemState == SetDate(old(db.systemState), now)
    ensures db.transactions == old(db.transactions) && db.products == old(db.products)
    ensures old(db.Valid()) ==> db.Valid()
  {
    var needed := UpdateNeeded(db.systemState.rows, now);
    if needed.Err? {
      return Err(needed.error);
    }
    if !needed.value {
      return Ok(None);
    }
    r := RollMonth(db, now, failAt);
  }

  /**
   * The update once it is due: every active envelope rolled or reset, the
   * date recorded and the transaction committed, or on a store error
   * nothing changed.
   */
  method RollMonth(db: Store, now: Date, failAt: Option<nat>) returns (r: Result<Option<MonthlyUpdate>, Error>)
    modifies db
    ensures FailsWithin(failAt, |ActiveInOrder(old(db.envelopes.rows))|) ==>
      r == Err(Database) && db.envelopes == old(db.envelopes) && db.systemState == old(db.systemState)
    ensures !FailsWithin(failAt, |ActiveInOrder(old(db.envelopes.rows))|) ==>
      var list := ActiveInOrder(old(db.envelopes.rows));
      && r == Ok(Some(Summary(list, now)))
      && db.envelopes == old(db.envelopes).(rows := RollAll(old(db.envelopes.rows), list))
      && db.systemState == SetDate(old(db.systemState), now)
    ensures db.transactions == old(db.transactions) && db.products == old(db.products)
    ensures old(db.Valid()) ==> db.Valid()
  {
    var savedEnvelopes, savedState := db.envelopes, db.systemState;
    var list := ActiveInOrder(db.envelopes.rows);
    var n := |list|;
    var failed, results, rolloverCount, resetCount := RollEnvelopes(db, list, failAt);
    if failed || (failAt.Some? && failAt.value == n) {
      db.envelopes := savedEnvelopes;
      return Err(Database);
    }
    var commitFails := failAt.Some? && failAt.value == n + 1;
    if old(db.Valid()) {
      RollAllKeepsIds(savedEnvelopes.rows, list);
      SameIdsKeepValid(savedEnvelopes, db.envelopes, db.transactions);
    }
    SetLastMonthlyUpdateDate(db, now);
    if commitFails {
      db.envelopes, db.systemState := savedEnvelopes, savedState;
      return Err(Database);
    }
    return Ok(Some(MonthlyUpdate(results, |results|, rolloverCount, resetCount, now)));
  }

  /**
   * The loop of process_monthly_updates: for each listed envelope, in order,
   * write its new balance, count it as rollover or reset and record its
   * result; a store error at write `k` stops the loop.
   */
  method RollEnvelopes(db: Store, list: seq<Envelope>, failAt: Option<nat>)
    returns (failed: bool, results: seq<EnvelopeUpdate>, rolloverCount: nat, resetCount: nat)
    modifies db
    ensures failed <==> failAt.Some? && failAt.value < |list|
    ensures !failed ==>
      && db.envelopes == old(db.envelopes).(rows := RollAll(old(db.envelopes.rows), list))
      && results == Updates(list) && rolloverCount == Count(list, Rolls()) && resetCount == Count(list, Resets())
    ensures db.systemState == old(db.systemState) && db.transactions == old(db.transactions) && db.products == old(db.products)
  {
    ghost var t0 := db.envelopes;
    results, rolloverCount, resetCount := [], 0, 0;
    var k := 0;
    while k < |list|
      invariant k <= |list|
      invariant failAt.Some? ==> k <= failAt.value
      invariant db.envelopes == t0.(rows := RollAll(t0.rows, list[..k]))
      invariant |results| == k && forall i :: 0 <= i < k ==> results[i] == UpdateOf(list[i])
      invariant rolloverCount == Count(list[..k], Rolls()) && resetCount == Count(list[..k], Resets())
      invariant db.systemState == old(db.systemState) && db.transactions == old(db.transactions) && db.products == old(db.products)
    {
      if failAt.Some? && failAt.value == k {
        return true, results, rolloverCount, resetCount;
      }
      results, rolloverCount, resetCount := RollNext(db, list, k, t0, results, rolloverCount, resetCount);
      k := k + 1;
    }
    assert list[..k] == list;
    return false, results, rolloverCount, resetCount;
  }

  /**
   * One turn of the loop, for the `k`-th envelope of the list: its balance
   * write on the table `t0` the loop started from, its count and its result.
   */
  method RollNext(db: Store, list: seq<Envelope>, k: nat, ghost t0: Table<Envelope>,
                  results: seq<EnvelopeUpdate>, rolloverCount: nat, resetCount: nat)
    returns (results1: seq<EnvelopeUpdate>, rolloverCount1: nat, resetCount1: nat)
    requires k < |list| && db.envelopes == t0.(rows := RollAll(t0.rows, list[..k]))
    requires |results| == k && forall i :: 0 <= i < k ==> results[i] == UpdateOf(list[i])
    requires rolloverCount == Count(list[..k], Rolls()) && resetCount == Count(list[..k], Resets())
    modifies db
    ensures db.envelopes == t0.(rows := RollAll(t0.rows, list[..k + 1]))
    ensures |results1| == k + 1 && forall i :: 0 <= i < k + 1 ==> results1[i] == UpdateOf(list[i])
    ensures rolloverCount1 == Count(list[..k + 1], Rolls()) && resetCount1 == Count(list[..k + 1], Resets())
    ensures db.systemState == old(db.systemState) && db.transactions == old(db.transactions) && db.products == old(db.products)
  {
    var e := list[k];
    RollStep(t0.rows, list, k);
    WriteBalance(db, e.id, RolledBalance(e));
    assert list[..k + 1] == list[..k] + [e];
    CountAppend(list[..k], e, Rolls());
    CountAppend(list[..k], e, Resets());
    rolloverCount1, resetCount1 := rolloverCount, resetCount;
    if e.rollover {
      rolloverCount1 := rolloverCount + 1;
    } else {
      resetCount1 := resetCount + 1;
    }
    results1 := results + [UpdateOf(e)];
  }

  /** `active_model.update`: the balance column of the row with that id, as one statement. */
  method WriteBalance(db: Store, id: nat, balance: real)
    modifies db
    ensures db.envelopes == old(db.envelopes).(rows := SetBalance(old(db.envelopes.rows), id, balance))
    ensures db.systemState == old(db.systemState) && db.transactions == old(db.transactions) && db.products == old(db.products)
  {
    db.envelopes := db.envelopes.(rows := SetBalance(db.envelopes.rows, id, balance));
  }

  /** One more write of the pass: the next listed envelope's new balance. */
  lemma RollStep(rows: seq<Envelope>, list: seq<Envelope>, k: nat)
    requires k < |list|
    ensures RollAll(rows, list[..k + 1]) == SetBalance(RollAll(rows, list[..k]), list[k].id, RolledBalance(list[k]))
  {
    assert list[..k + 1][..k] == list[..k];
  }

  /** The balance writes keep every row's id in its place. */
  lemma {:induction false} RollAllKeepsIds(rows: seq<Envelope>, list: seq<Envelope>)
    ensures forall i :: 0 <= i < |rows| ==> RollAll(rows, list)[i].id == rows[i].id
    decreases |list|
  {
    if list != [] {
      RollAllKeepsIds(rows, list[..|list| - 1]);
    }
  }

  /** Balance writes touch no id, so the table stays valid and every transaction keeps its envelope. */
  /**
   * The effect of a full pass on a table with distinct ids: every active
   * envelope gets its rolled balance, every soft-deleted one is left as it was.
   */
  lemma MonthlyEffect(t: Table<Envelope>)
    requires EnvelopeIdsValid(t)
    ensures var r := RollAll(t.rows, ActiveInOrder(t.rows));
      forall i :: 0 <= i < |t.rows| ==>
        r[i] == if t.rows[i].isDeleted then t.rows[i] else t.rows[i].(balance := RolledBalance(t.rows[i]))
  {
    RollAllEffect(t.rows, ActiveInOrder(t.rows));
  }

  lemma {:induction false} RollAllEffect(rows: seq<Envelope>, list: seq<Envelope>)
    requires forall i, j :: 0 <= i < j < |rows| ==> rows[i].id != rows[j].id
    requires forall e :: e in list ==> e in rows
    ensures forall i :: 0 <= i < |rows| ==>
      RollAll(rows, list)[i] == if rows[i] in list then rows[i].(balance := RolledBalance(rows[i])) else rows[i]
    decreases |list|
  {
    if list != [] {
      var front := list[..|list| - 1];
      var last := list[|list| - 1];
      assert list == front + [last];
      RollAllEffect(rows, front);
      forall i | 0 <= i < |rows|
        ensures RollAll(rows, list)[i] == if rows[i] in list then rows[i].(balance := RolledBalance(rows[i])) else rows[i]
      {
        if rows[i].id == last.id {
          assert last in rows;
          var k :| 0 <= k < |rows| && rows[k] == last;
          assert k == i;
        } else {
          assert rows[i] in list <==> rows[i] in front;
        }
      }
    }
  }

  /** The report's counts: every visited envelope is counted once, as rollover or as reset. */
  lemma SummaryCounts(list: seq<Envelope>, date: Date)
    ensures var s := Summary(list, date);
      && s.totalProcessed == |s.updatedEnvelopes| == |list|
      && s.rolloverCount + s.resetCount == s.totalProcessed
      && s.updateDate == date
  {
    CountSplit(list, Rolls(), Resets());
  }

  /** The concrete cases: 50 + 100 rolls to 150, 75 resets to 200, and an overdrawn -25 rolls to 75. */
  lemma RolloverExamples(e: Envelope)
    ensures RolledBalance(e.(balance := 50.0, allocation := 100.0, rollover := true)) == 150.0
    ensures RolledBalance(e.(balance := 75.0, allocation := 200.0, rollover := false)) == 200.0
    ensures RolledBalance(e.(balance := -25.0, allocation := 100.0, rollover := true)) == 75.0
  {
  }
}
