/**
 * The envelope handlers of the rusqlite generation (src/commands/envelope.rs,
 * and their older copy in src/commands.rs): the monthly `/update`, and the
 * argument checks of `/envelope create` and `/envelope edit`.
 */
module EnvelopeCommandsV1 {
  import opened Wrappers
  import opened Text
  import opened Sorting
  import opened Calendar
  import opened Config
  import opened StoreV1
  import opened EnvelopesV1
  import opened TransactionsV1
  import opened SystemStateV1

  // ----- the monthly update -----

  /** The system-state key that records the last processed month. */
  const LastUpdateKey := "last_update_processed_month"

  /** The prune window: 365 + 30 days before the first of the current month. */
  const PruneDays: nat := 395

  /** The month key, the local date printed as `%Y-%m`. */
  function MonthKey(today: Date): string
  {
    FormatMonth(today)
  }

  /** The month of `today` has been processed when the stored key equals its month key. */
  predicate AlreadyProcessed(state: seq<StateRow>, today: Date)
  {
    StateValue(state, LastUpdateKey) == Some(MonthKey(today))
  }

  /** The new balance of one envelope: rollover adds the allocation, otherwise the balance resets to it. */
  function RolledBalance(e: Envelope): real
  {
    if e.rollover then e.balance + e.allocation else e.allocation
  }

  /**
   * The balance writes of the loop, in order, for the envelopes of `list`;
   * each new balance is computed from the row as it was listed.
   */
  function ApplyRollovers(rows: seq<Envelope>, list: seq<Envelope>): seq<Envelope>
    decreases |list|
  {
    if list == [] then rows
    else
      var last := list[|list| - 1];
      WithBalance(ApplyRollovers(rows, list[..|list| - 1]), last.id, RolledBalance(last))
  }

  /** The envelope table after the first `k` balance writes of the update. */
  function Rolled(t: Table<Envelope>, k: nat): Table<Envelope>
    requires k <= |AllActive(t.rows)|
  {
    t.(rows := ApplyRollovers(t.rows, AllActive(t.rows)[..k]))
  }

  /** The prune cutoff: the first of the current month minus 395 days. */
  function PruneCutoff(today: Date): (r: Date)
    requires IsValid(today)
    ensures IsValid(r)
    ensures Ordinal(r) == Ordinal(MonthFirst(today)) - PruneDays as int
  {
    SubtractDaysOrdinal(MonthFirst(today), PruneDays);
    SubtractDays(MonthFirst(today), PruneDays)
  }

  /** What `/update` reports: already done, done with its two counts, or stopped by a store error at a step. */
  datatype UpdateOutcome =
    | AlreadyDone(month: string)
    | Completed(month: string, processed: nat, pruned: nat)
    | Failed(step: nat)

  /**
   * update: unless the month is already recorded, write every active
   * envelope's new balance one statement at a time, prune the log, and
   * record the month last. Nothing is rolled back: `failAt == Some(k)`
   * stands for a store error at the `k`-th write (the balance writes are
   * 0 to n - 1, the prune n, the state write n + 1), which leaves every
   * earlier write in place.
   */
  method MonthlyUpdate(db: Store, today: Date, failAt: Option<nat>) returns (o: UpdateOutcome)
    requires IsValid(today)
    modifies db
    ensures AlreadyProcessed(old(db.systemState), today) ==>
      && o == AlreadyDone(MonthKey(today))
      && db.envelopes == old(db.envelopes) && db.transactions == old(db.transactions) && db.systemState == old(db.systemState)
    ensures !AlreadyProcessed(old(db.systemState), today) && failAt.Some? && failAt.value < |AllActive(old(db.envelopes.rows))| ==>
      && o == Failed(failAt.value)
      && db.envelopes == Rolled(old(db.envelopes), failAt.value)
      && db.transactions == old(db.transactions) && db.systemState == old(db.systemState)
    ensures !AlreadyProcessed(old(db.systemState), today) && failAt == Some(|AllActive(old(db.envelopes.rows))|) ==>
      && o == Failed(failAt.value)
      && db.envelopes == Rolled(old(db.envelopes), |AllActive(old(db.envelopes.rows))|)
      && db.transactions == old(db.transactions) && db.systemState == old(db.systemState)
    ensures !AlreadyProcessed(old(db.systemState), today) && failAt == Some(|AllActive(old(db.envelopes.rows))| + 1) ==>
      && o == Failed(failAt.value)
      && db.envelopes == Rolled(old(db.envelopes), |AllActive(old(db.envelopes.rows))|)
      && db.transactions == old(db.transactions).(rows := Reject(old(db.transactions.rows), PrunedBy(PruneCutoff(today))))
      && db.systemState == old(db.systemState)
    ensures !AlreadyProcessed(old(db.systemState), today) && (failAt.None? || failAt.value > |AllActive(old(db.envelopes.rows))| + 1) ==>
      && o == Completed(MonthKey(today), |AllActive(old(db.envelopes.rows))|, Count(old(db.transactions.rows), PrunedBy(PruneCutoff(today))))
      && db.envelopes == Rolled(old(db.envelopes), |AllActive(old(db.envelopes.rows))|)
      && db.transactions == old(db.transactions).(rows := Reject(old(db.transactions.rows), PrunedBy(PruneCutoff(today))))
      && db.systemState == Upsert(old(db.systemState), LastUpdateKey, MonthKey(today))
    ensures db.products == old(db.products)
    ensures old(db.Valid()) ==> db.Valid()
  {
    var month := MonthKey(today);
    var last := StateValue(db.systemState, LastUpdateKey);
    if last == Some(month) {
      return AlreadyDone(month);
    }
    var list := AllActive(db.envelopes.rows);
    var failed, processed := RolloverEnvelopes(db, failAt);
    if failed {
      return Failed(processed);
    }
    if failAt == Some(|list|) {
      return Failed(|list|);
    }
    var pruned := PruneOldTransactions(db, PruneCutoff(today));
    if failAt == Some(|list| + 1) {
      return Failed(|list| + 1);
    }
    SetSystemStateValue(db, LastUpdateKey, month);
    return Completed(month, processed, pruned);
  }

  /**
   * The loop of update: for each envelope listed by get_all_active_envelopes,
   * in order, write its rolled balance; a store error at write `k` stops the
   * loop with the first `k` writes done.
   */
  method RolloverEnvelopes(db: Store, failAt: Option<nat>) returns (failed: bool, processed: nat)
    modifies db
    ensures failed <==> failAt.Some? && failAt.value < |AllActive(old(db.envelopes.rows))|
    ensures processed == if failed then failAt.value else |AllActive(old(db.envelopes.rows))|
    ensures processed <= |AllActive(old(db.envelopes.rows))|
    ensures db.envelopes == Rolled(old(db.envelopes), processed)
    ensures db.transactions == old(db.transactions) && db.products == old(db.products) && db.systemState == old(db.systemState)
    ensures old(db.Valid()) ==> db.Valid()
  {
    ghost var t0 := db.envelopes;
    var list := AllActive(db.envelopes.rows);
    processed := 0;
    while processed < |list|
      invariant processed <= |list|
      invariant failAt.Some? ==> processed <= failAt.value
      invariant db.envelopes == Rolled(t0, processed)
      invariant db.transactions == old(db.transactions) && db.products == old(db.products) && db.systemState == old(db.systemState)
      invariant old(db.Valid()) ==> db.Valid()
    {
      if failAt.Some? && failAt.value == processed {
        return true, processed;
      }
      var e := list[processed];
      RolledStep(t0, processed);
      UpdateEnvelopeBalance(db, e.id, RolledBalance(e));
      processed := processed + 1;
    }
    return false, processed;
  }

  /** One more write of the loop: the next listed envelope's rolled balance. */
  lemma RolledStep(t: Table<Envelope>, k: nat)
    requires k < |AllActive(t.rows)|
    ensures Rolled(t, k + 1) == Rolled(t, k).(rows := WithBalance(Rolled(t, k).rows, AllActive(t.rows)[k].id, RolledBalance(AllActive(t.rows)[k])))
  {
    var list := AllActive(t.rows);
    assert list[..k + 1][..k] == list[..k];
  }

  /**
   * The balance writes hit exactly the listed rows: a listed row (of a table
   * with distinct ids) gets its rolled balance, any other row is unchanged.
   */
  lemma {:induction false} ApplyRolloversEffect(rows: seq<Envelope>, list: seq<Envelope>)
    requires forall i, j :: 0 <= i < j < |rows| ==> rows[i].id != rows[j].id
    requires forall e :: e in list ==> e in rows
    ensures |ApplyRollovers(rows, list)| == |rows|
    ensures forall i :: 0 <= i < |rows| ==>
      ApplyRollovers(rows, list)[i] == if rows[i] in list then rows[i].(balance := RolledBalance(rows[i])) else rows[i]
    decreases |list|
  {
    if list != [] {
      var front := list[..|list| - 1];
      var last := list[|list| - 1];
      assert forall e :: e in front ==> e in list;
      ApplyRolloversEffect(rows, front);
      var prev := ApplyRollovers(rows, front);
      assert list == front + [last];
      forall i | 0 <= i < |rows|
        ensures ApplyRollovers(rows, list)[i] == if rows[i] in list then rows[i].(balance := RolledBalance(rows[i])) else rows[i]
      {
        assert prev[i].id == rows[i].id;
        if rows[i].id == last.id {
          assert last in list;
          var k :| 0 <= k < |rows| && rows[k] == last;
          SameIdSameRow(rows, i, k);
          assert rows[i] == last;
        } else {
          assert rows[i] in list <==> rows[i] in front;
        }
      }
    }
  }

  lemma SameIdSameRow(rows: seq<Envelope>, i: nat, k: nat)
    requires forall i, j :: 0 <= i < j < |rows| ==> rows[i].id != rows[j].id
    requires i < |rows| && k < |rows| && rows[i].id == rows[k].id
    ensures i == k
  {
  }

  /**
   * A full pass of the update on a valid table: every active envelope gets
   * balance + allocation (rollover) or the allocation, soft-deleted rows are
   * untouched, and the count is the number of active rows.
   */
  lemma MonthlyRolloverEffect(t: Table<Envelope>)
    requires EnvelopesValid(t)
    ensures |AllActive(t.rows)| == Count(t.rows, (e: Envelope) => !e.isDeleted)
    ensures var r := Rolled(t, |AllActive(t.rows)|).rows;
      && |r| == |t.rows|
      && forall i :: 0 <= i < |t.rows| ==>
           r[i] == if t.rows[i].isDeleted then t.rows[i] else t.rows[i].(balance := RolledBalance(t.rows[i]))
  {
    var list := AllActive(t.rows);
    assert list[..|list|] == list;
    ApplyRolloversEffect(t.rows, list);
    FilterCount(t.rows, (e: Envelope) => !e.isDeleted);
    assert |list| == |multiset(list)| == |multiset(Filter(t.rows, (e: Envelope) => !e.isDeleted))|;
  }

  /**
   * Once an update completes, a later `/update` is skipped exactly while the
   * local date stays in the same calendar month.
   */
  lemma UpdateRunsOncePerMonth(state: seq<StateRow>, done: Date, later: Date)
    requires StateValid(state)
    requires IsValid(done) && InSqlRange(done) && IsValid(later) && InSqlRange(later)
    ensures AlreadyProcessed(Upsert(state, LastUpdateKey, MonthKey(done)), later)
      <==> later.year == done.year && later.month == done.month
  {
    GetAfterSet(state, LastUpdateKey, MonthKey(done));
    FormatMonthEqual(done, later);
  }

  // ----- /envelope create -----

  /** Why `/envelope create` refuses a request before touching the store. */
  datatype CreateRefusal = EmptyName | NegativeAllocation | EmptyCategory

  /**
   * The checks of create_envelope, in order: a name that trims to nothing,
   * a negative allocation when one is given, a category that trims to
   * nothing when one is given.
   */
  function CheckCreate(name: string, category: Option<string>, allocation: Option<real>): (r: Option<CreateRefusal>)
    ensures r == Some(EmptyName) <==> IsBlank(name)
    ensures r == Some(NegativeAllocation) <==> !IsBlank(name) && allocation.Some? && allocation.value < 0.0
    ensures r == Some(EmptyCategory) <==>
      !IsBlank(name) && !(allocation.Some? && allocation.value < 0.0) && category.Some? && IsBlank(category.value)
    ensures r.None? <==>
      !IsBlank(name) && (allocation.Some? ==> allocation.value >= 0.0) && (category.Some? ==> !IsBlank(category.value))
  {
    TrimEmptyIffBlank(name);
    if Trim(name) == [] then Some(EmptyName)
    else if allocation.Some? && allocation.value < 0.0 then Some(NegativeAllocation)
    else
      match category
      case Some(c) => TrimEmptyIffBlank(c); if Trim(c) == [] then Some(EmptyCategory) else None
      case None => None
  }

  /** What `/envelope create` answers: a refusal, or one result per instance. */
  datatype CreateReply = Refused(reason: CreateRefusal) | Results(outcomes: seq<InstanceOutcome>)

  /**
   * create_envelope: the checks, then create_or_reenable_envelope_flexible
   * with the untrimmed name and the two configured user ids.
   */
  method CreateEnvelope(db: Store, name: string, category: Option<string>, allocation: Option<real>,
                        isIndividual: Option<bool>, rollover: Option<bool>, config: AppConfig)
    returns (r: Result<CreateReply, Error>)
    modifies db
    ensures CheckCreate(name, category, allocation).Some? ==>
      r == Ok(Refused(CheckCreate(name, category, allocation).value)) && db.envelopes == old(db.envelopes)
    ensures CheckCreate(name, category, allocation).None? ==>
      var res := CreateOrReenable(old(db.envelopes), CreateArgs(name, category, allocation, isIndividual, rollover), config.userId1, config.userId2);
      && (res.Ok? ==> r == Ok(Results(res.value.1)) && db.envelopes == res.value.0)
      && (res.Err? ==> r == Err(res.error) && db.envelopes == old(db.envelopes))
    ensures CheckCreate(name, category, allocation).None? && EnvelopesValid(old(db.envelopes)) ==>
      r.Ok? && r.value.Results? && |r.value.outcomes| == (if isIndividual.UnwrapOr(false) then 2 else 1)
    ensures db.transactions == old(db.transactions) && db.products == old(db.products) && db.systemState == old(db.systemState)
  {
    var refusal := CheckCreate(name, category, allocation);
    if refusal.Some? {
      return Ok(Refused(refusal.value));
    }
    var c := CreateArgs(name, category, allocation, isIndividual, rollover);
    if EnvelopesValid(db.envelopes) {
      CreateOrReenableCommits(db.envelopes, c, config.userId1, config.userId2);
    }
    var results := CreateOrReenableEnvelope(db, c, config.userId1, config.userId2);
    if results.Err? {
      return Err(results.error);
    }
    return Ok(Results(results.value));
  }

  // ----- /envelope edit -----

  /** Why `/envelope edit` stops before the attribute write. */
  datatype EditRefusal = NothingToChange | NotFound | UserOnShared

  /**
   * The checks of edit_envelope: at least one attribute, an active envelope
   * of that name for the target user (the given user, else the author) or
   * shared, and no user argument for a shared envelope. `Ok` carries the id
   * the attribute write would go to.
   */
  function CheckEdit(rows: seq<Envelope>, name: string, user: Option<UserId>, author: UserId,
                     category: Option<string>, allocation: Option<real>, rollover: Option<bool>): (r: Result<nat, EditRefusal>)
    ensures r == Err(NothingToChange) <==> category.None? && allocation.None? && rollover.None?
    ensures r == Err(NotFound) ==> UserOrShared(rows, name, user.UnwrapOr(author)).None?
    ensures r.Ok? ==> exists e :: e in rows && e.id == r.value && e.name == name && !e.isDeleted
                               && (e.userId == Some(user.UnwrapOr(author)) || e.userId.None?)
                               && (user.Some? ==> e.isIndividual)
  {
    if category.None? && allocation.None? && rollover.None? then Err(NothingToChange)
    else
      match UserOrShared(rows, name, user.UnwrapOr(author))
      case None => Err(NotFound)
      case Some(e) =>
        if user.Some? && !e.isIndividual then Err(UserOnShared)
        else Ok(e.id)
  }

  /**
   * On a valid table a user argument only ever selects that user's own
   * individual envelope, and without one the author's own envelope is
   * preferred to the shared one.
   */
  lemma EditTargetsOwnerFirst(t: Table<Envelope>, name: string, user: Option<UserId>, author: UserId,
                              category: Option<string>, allocation: Option<real>, rollover: Option<bool>)
    requires EnvelopesValid(t)
    requires category.Some? || allocation.Some? || rollover.Some?
    ensures var r := CheckEdit(t.rows, name, user, author, category, allocation, rollover);
      && (user.Some? && r.Ok? ==> exists i :: 0 <= i < |t.rows| && t.rows[i].id == r.value && HasKey(t.rows[i], name, user) && t.rows[i].isIndividual)
      && (ActiveWithKey(t.rows, name, Some(user.UnwrapOr(author))) ==> r.Ok?)
  {
    var r := CheckEdit(t.rows, name, user, author, category, allocation, rollover);
    var found := UserOrShared(t.rows, name, user.UnwrapOr(author));
    if found.Some? {
      var i :| 0 <= i < |t.rows| && t.rows[i] == found.value;
    }
  }
}
