/**
 * The envelope commands of the sea-orm generation (src/bot/commands/envelope.rs):
 * the pace and status arithmetic of the report, and create_envelope,
 * delete_envelope and update_envelope as their effect on the store and the
 * reply they choose. Discord replies are values of `EnvelopeReply`.
 */
module EnvelopeBot {
  import opened Wrappers
  import opened Text
  import opened Sorting
  import opened Floats
  import opened Calendar
  import opened StoreV2
  import opened EnvelopeCore
  import opened ReportCore

  // ----- pace and status of the report command -----

  /** `a > 0` scales both sides of an order. */
  lemma ScaleOrder(x: real, y: real, a: real)
    requires a > 0.0
    ensures x <= y <==> x * a <= y * a
  {
    if x <= y {
      assert y * a - x * a == (y - x) * a;
    } else {
      assert x * a - y * a == (x - y) * a;
    }
  }

  /** How far `now` is through its month: `day / days_in_month * 100`, with the month counted by its span. */
  function ExpectedPercent(now: Date): (r: real)
    requires IsValid(now)
    ensures r * MonthLength(now.year, now.month) as real == now.day as real * 100.0
    ensures 0.0 < r <= 100.0
    ensures r == 100.0 <==> now.day == MonthLength(now.year, now.month)
  {
    var days := DaysInMonthBySpan(now);
    DaysInMonthAgree(now);
    PercentOfDays(now.day, MonthLength(now.year, now.month));
    assert days as real == MonthLength(now.year, now.month) as real;
    (now.day as real / days as real) * 100.0
  }

  /** `day / days * 100` for a day inside a month of `days` days. */
  lemma PercentOfDays(day: nat, days: nat)
    requires 1 <= day <= days
    ensures var r := (day as real / days as real) * 100.0;
      && r * days as real == day as real * 100.0
      && 0.0 < r <= 100.0
      && (r == 100.0 <==> day == days)
  {
    var d := days as real;
    var r := (day as real / d) * 100.0;
    assert r * d == day as real * 100.0;
    ScaleOrder(r, 100.0, d);
    ScaleOrder(100.0, r, d);
    ScaleOrder(r, 0.0, d);
  }

  /** The share of the allocation spent, in percent: `(allocation - balance) / allocation * 100`, 0 without an allocation. */
  function SpentPercent(balance: real, allocation: real): (r: real)
    ensures allocation <= 0.0 ==> r == 0.0
    ensures allocation > 0.0 ==> r * allocation == (allocation - balance) * 100.0
  {
    if allocation > 0.0 then ((allocation - balance) / allocation) * 100.0 else 0.0
  }

  /** Spent and remaining are complements: the spent percentage is 100 minus the report's progress. */
  lemma SpentComplementsProgress(balance: real, allocation: real)
    requires allocation > 0.0
    ensures SpentPercent(balance, allocation) == 100.0 - CalculateProgress(balance, allocation)
  {
    var s, p := SpentPercent(balance, allocation), CalculateProgress(balance, allocation);
    assert (allocation - balance) / allocation + balance / allocation == 1.0;
  }

  /** The status emoji: 🟢 on pace, 🟡 up to 20 points over, 🔴 beyond. */
  datatype Pace = OnTrack | SlightlyOver | WellOver

  /** Worse statuses rank higher. */
  function Rank(p: Pace): nat
  {
    match p
    case OnTrack => 0
    case SlightlyOver => 1
    case WellOver => 2
  }

  /** The band of the report: spent percentage against the expected percentage. */
  function PaceStatus(spent: real, expected: real): Pace
  {
    if spent <= expected then OnTrack
    else if spent <= expected + 20.0 then SlightlyOver
    else WellOver
  }

  /** The status the report shows for one envelope on day `now`. */
  function EnvelopeStatus(e: Envelope, now: Date): Pace
    requires IsValid(now)
  {
    PaceStatus(SpentPercent(e.balance, e.allocation), ExpectedPercent(now))
  }

  /**
   * For a positive allocation the status rule is read off the money,
   * whatever the expected percentage `x`: on track while the amount spent
   * is at most `x` percent of the allocation, well over once it exceeds
   * `x + 20` percent of it.
   */
  lemma StatusByAmount(balance: real, allocation: real, x: real)
    requires allocation > 0.0
    ensures PaceStatus(SpentPercent(balance, allocation), x) == OnTrack <==> (allocation - balance) * 100.0 <= x * allocation
    ensures PaceStatus(SpentPercent(balance, allocation), x) == WellOver <==> (allocation - balance) * 100.0 > (x + 20.0) * allocation
  {
    var s := SpentPercent(balance, allocation);
    ScaleOrder(s, x, allocation);
    ScaleOrder(s, x + 20.0, allocation);
  }

  /** Without an allocation, and for an envelope holding at least its allocation, the status is 🟢. */
  lemma StatusOnTrackCases(e: Envelope, now: Date)
    requires IsValid(now)
    ensures e.allocation <= 0.0 ==> EnvelopeStatus(e, now) == OnTrack
    ensures e.balance >= e.allocation ==> EnvelopeStatus(e, now) == OnTrack
  {
    if e.allocation > 0.0 {
      ScaleOrder(SpentPercent(e.balance, e.allocation), 0.0, e.allocation);
    }
  }

  /** Spending more never improves the status. */
  lemma StatusMonotonic(e: Envelope, lower: real, now: Date)
    requires IsValid(now) && lower <= e.balance
    ensures Rank(EnvelopeStatus(e.(balance := lower), now)) >= Rank(EnvelopeStatus(e, now))
  {
    var x := ExpectedPercent(now);
    var s, t := SpentPercent(e.balance, e.allocation), SpentPercent(lower, e.allocation);
    assert EnvelopeStatus(e, now) == PaceStatus(s, x);
    assert EnvelopeStatus(e.(balance := lower), now) == PaceStatus(t, x);
    if e.allocation > 0.0 {
      SpentMonotonic(e.balance, lower, e.allocation);
    }
    PaceMonotonic(s, t, x);
  }

  lemma SpentMonotonic(balance: real, lower: real, allocation: real)
    requires allocation > 0.0 && lower <= balance
    ensures SpentPercent(balance, allocation) <= SpentPercent(lower, allocation)
  {
    var s, t := SpentPercent(balance, allocation), SpentPercent(lower, allocation);
    assert t * allocation - s * allocation == (balance - lower) * 100.0;
    ScaleOrder(s, t, allocation);
  }

  lemma PaceMonotonic(s: real, t: real, x: real)
    requires s <= t
    ensures Rank(PaceStatus(s, x)) <= Rank(PaceStatus(t, x))
  {
  }

  /** Day 15 of a 30-day month with 100 allocated: 50 left is 🟢, 35 left is 🟡, 20 left is 🔴. */
  lemma StatusExamples(e: Envelope)
    requires e.allocation == 100.0
    ensures ExpectedPercent(Date(2024, 4, 15)) == 50.0
    ensures EnvelopeStatus(e.(balance := 50.0), Date(2024, 4, 15)) == OnTrack
    ensures EnvelopeStatus(e.(balance := 35.0), Date(2024, 4, 15)) == SlightlyOver
    ensures EnvelopeStatus(e.(balance := 20.0), Date(2024, 4, 15)) == WellOver
  {
    var x := ExpectedPercent(Date(2024, 4, 15));
    assert x * 30.0 == 1500.0;
    assert SpentPercent(50.0, 100.0) * 100.0 == 5000.0;
    assert SpentPercent(35.0, 100.0) * 100.0 == 6500.0;
    assert SpentPercent(20.0, 100.0) * 100.0 == 8000.0;
  }

  // ----- resolving a name -----

  /**
   * The lookup of delete_envelope and update_envelope: the user's own
   * envelope of that name first, then the shared one (whose duplicate error
   * propagates).
   */
  function Resolve(rows: seq<Envelope>, name: string, user: UserId): (r: Result<Option<Envelope>, Error>)
    ensures (exists e :: e in rows && IsOwnedNamed(e, name, user)) ==>
      r.Ok? && r.value.Some? && IsOwnedNamed(r.value.value, name, user)
    ensures r.Ok? && r.value.Some? ==>
      && r.value.value in rows && r.value.value.name == name && !r.value.value.isDeleted
      && (r.value.value.userId == Some(user) || IsSharedNamed(r.value.value, name))
    ensures r.Ok? && r.value.None? <==>
      (forall e :: e in rows ==> !IsOwnedNamed(e, name, user) && !IsSharedNamed(e, name))
    ensures r.Err? <==>
      (forall e :: e in rows ==> !IsOwnedNamed(e, name, user)) && Count(rows, SharedNamed(name)) > 1
  {
    match ByNameAndUser(rows, name, user)
    case Some(e) => Ok(Some(e))
    case None => SharedByName(rows, name)
  }

  // ----- the commands -----

  /** The reply a command chooses; refusals are replies, not errors. */
  datatype EnvelopeReply =
    | InvalidAllocation
    | NegativeAllocation
    | AlreadyExists
    | NotFound
    | NothingToUpdate
    | Created(envelope: Envelope)
    | Deleted(envelope: Envelope)
    | Updated(envelope: Envelope)

  /** The owner of a new envelope: the author for an individual one, nobody for a shared one. */
  function OwnerFor(isIndividual: Option<bool>, author: UserId): (r: Option<UserId>)
    ensures r.Some? <==> isIndividual.UnwrapOr(false)
    ensures r.Some? ==> r.value == author
  {
    if isIndividual.UnwrapOr(false) then Some(author) else None
  }

  /**
   * The duplicate check of create_envelope: the owner's active envelope of
   * that name, or for a shared envelope the shared one.
   */
  function ExistingCheck(rows: seq<Envelope>, name: string, owner: Option<UserId>): (r: Result<Option<Envelope>, Error>)
    ensures owner.Some? ==> r.Ok? && (r.value.Some? <==> exists e :: e in rows && IsOwnedNamed(e, name, owner.value))
    ensures owner.None? ==> (r.Ok? && r.value.None? <==> forall e :: e in rows ==> !IsSharedNamed(e, name))
    ensures owner.None? ==> (r.Err? <==> Count(rows, SharedNamed(name)) > 1)
  {
    if owner.Some? then Ok(ByNameAndUser(rows, name, owner.value)) else SharedByName(rows, name)
  }

  /**
   * The outcome of create_envelope when its duplicate check looks up
   * `checkName`: a NaN, infinite or negative allocation is refused; an
   * existing active envelope found by the check is refused; otherwise the
   * core creates the envelope under the trimmed name, refusing a blank one.
   */
  predicate CreateOutcome(before: Table<Envelope>, after: Table<Envelope>, checkName: string, name: string,
                          category: string, allocation: F64, isIndividual: Option<bool>, rollover: Option<bool>,
                          author: UserId, r: Result<EnvelopeReply, Error>)
  {
    && (IsNanOrInfinite(allocation) ==> r == Ok(InvalidAllocation) && after == before)
    && (IsFinite(allocation) && allocation.r < 0.0 ==> r == Ok(NegativeAllocation) && after == before)
    && (IsFinite(allocation) && allocation.r >= 0.0 ==>
      var existing := ExistingCheck(before.rows, checkName, OwnerFor(isIndividual, author));
      && (existing.Err? ==> r == Err(existing.error) && after == before)
      && (existing.Ok? && existing.value.Some? ==> r == Ok(AlreadyExists) && after == before)
      && (existing.Ok? && existing.value.None? && IsBlank(name) ==>
            r == Err(Config(EmptyNameMessage)) && after == before)
      && (existing.Ok? && existing.value.None? && !IsBlank(name) ==>
            && r.Ok? && r.value.Created?
            && r.value.envelope == Envelope(before.nextId, Trim(name), category, allocation.r, 0.0,
                                            isIndividual.UnwrapOr(false), OwnerFor(isIndividual, author),
                                            rollover.UnwrapOr(false), false)
            && after == Table(before.rows + [r.value.envelope], before.nextId + 1)))
  }

  /**
   * create_envelope as the source writes it: the duplicate check looks up
   * the name as typed, while the core stores the trimmed name.
   */
  method CreateEnvelopeCommand(db: Store, name: string, category: string, allocation: F64,
                               isIndividual: Option<bool>, rollover: Option<bool>, author: UserId)
    returns (r: Result<EnvelopeReply, Error>)
    modifies db
    ensures CreateOutcome(old(db.envelopes), db.envelopes, name, name, category, allocation, isIndividual, rollover, author, r)
    ensures db.transactions == old(db.transactions) && db.products == old(db.products) && db.systemState == old(db.systemState)
    ensures old(db.Valid()) ==> db.Valid()
  {
    r := CreateChecked(db, name, name, category, allocation, isIndividual, rollover, author);
  }

  /**
   * create_envelope with the duplicate check on the trimmed name, the name
   * the core stores: the created envelope is then the one the lookups find.
   */
  method CreateEnvelopeCommandTrimmed(db: Store, name: string, category: string, allocation: F64,
                                      isIndividual: Option<bool>, rollover: Option<bool>, author: UserId)
    returns (r: Result<EnvelopeReply, Error>)
    modifies db
    ensures CreateOutcome(old(db.envelopes), db.envelopes, Trim(name), name, category, allocation, isIndividual, rollover, author, r)
    ensures r.Ok? && r.value.Created? && !isIndividual.UnwrapOr(false) ==>
      SharedByName(db.envelopes.rows, Trim(name)) == Ok(Some(r.value.envelope))
    ensures r.Ok? && r.value.Created? && isIndividual.UnwrapOr(false) ==>
      ByNameAndUser(db.envelopes.rows, Trim(name), author) == Some(r.value.envelope)
    ensures db.transactions == old(db.transactions) && db.products == old(db.products) && db.systemState == old(db.systemState)
    ensures old(db.Valid()) ==> db.Valid()
  {
    ghost var before := db.envelopes;
    r := CreateChecked(db, Trim(name), name, category, allocation, isIndividual, rollover, author);
    if r.Ok? && r.value.Created? {
      var owner := OwnerFor(isIndividual, author);
      assert ExistingCheck(before.rows, Trim(name), owner) == Ok(None);
      if isIndividual.UnwrapOr(false) {
        TrimmedCheckFindsOwn(before.rows, Trim(name), author, r.value.envelope);
      } else {
        TrimmedCheckKeepsSharedUnique(before.rows, Trim(name), r.value.envelope);
      }
    }
  }

  method CreateChecked(db: Store, checkName: string, name: string, category: string, allocation: F64,
                       isIndividual: Option<bool>, rollover: Option<bool>, author: UserId)
    returns (r: Result<EnvelopeReply, Error>)
    modifies db
    ensures CreateOutcome(old(db.envelopes), db.envelopes, checkName, name, category, allocation, isIndividual, rollover, author, r)
    ensures db.transactions == old(db.transactions) && db.products == old(db.products) && db.systemState == old(db.systemState)
    ensures old(db.Valid()) ==> db.Valid()
  {
    if IsNanOrInfinite(allocation) {
      return Ok(InvalidAllocation);
    }
    if allocation.r < 0.0 {
      return Ok(NegativeAllocation);
    }
    var owner := OwnerFor(isIndividual, author);
    var existing := ExistingCheck(db.envelopes.rows, checkName, owner);
    if existing.Err? {
      return Err(existing.error);
    }
    if existing.value.Some? {
      return Ok(AlreadyExists);
    }
    var created := CreateEnvelope(db, name, owner, category, allocation.r, isIndividual.UnwrapOr(false), rollover.UnwrapOr(false));
    if created.Err? {
      return Err(created.error);
    }
    return Ok(Created(created.value));
  }

  /**
   * The check as the source writes it takes the name untrimmed while the
   * core stores it trimmed: next to an active shared "Food", a request for
   * " Food" passes the check and adds a second shared "Food", after which
   * get_shared_envelope_by_name("Food") fails.
   */
  lemma UntrimmedCheckAdmitsDuplicate()
    ensures var food := Envelope(1, "Food", "food", 100.0, 0.0, false, None, false, false);
      var added := Envelope(2, "Food", "food", 50.0, 0.0, false, None, false, false);
      && ExistingCheck([food], " Food", None) == Ok(None)
      && CreateRefusal(" Food", None, Num(50.0), false).None?
      && Trim(" Food") == added.name
      && SharedByName([food, added], "Food") == Err(DuplicateSharedEnvelope("Food", 2))
  {
    var food := Envelope(1, "Food", "food", 100.0, 0.0, false, None, false, false);
    var added := Envelope(2, "Food", "food", 50.0, 0.0, false, None, false, false);
    TrimPaddedName();
    assert !IsSharedNamed(food, " Food");
    assert Count([food], SharedNamed(" Food")) == 0;
    assert IsSharedNamed(food, "Food") && IsSharedNamed(added, "Food");
    assert SharedNamed("Food")(food) && SharedNamed("Food")(added);
    assert [food, added][1..] == [added] && [added][1..] == [];
    assert Count([added], SharedNamed("Food")) == 1;
    assert Count([food, added], SharedNamed("Food")) == 2;
  }

  /**
   * The same run through CreateEnvelopeCommand's contract: whatever store
   * the command leaves behind after a request for a shared " Food" next to
   * the active shared "Food", its shared lookup of "Food" fails.
   */
  lemma CommandAdmitsDuplicate(after: Table<Envelope>, author: UserId, r: Result<EnvelopeReply, Error>)
    requires CreateOutcome(Table([Envelope(1, "Food", "food", 100.0, 0.0, false, None, false, false)], 2), after,
                           " Food", " Food", "food", Num(50.0), None, None, author, r)
    ensures r.Ok? && r.value.Created?
    ensures SharedByName(after.rows, "Food") == Err(DuplicateSharedEnvelope("Food", 2))
  {
    UntrimmedCheckAdmitsDuplicate();
    TrimPaddedName();
  }

  /** `" Food".trim()` is `"Food"`, which is not blank. */
  lemma TrimPaddedName()
    ensures Trim(" Food") == "Food" && !IsBlank(" Food")
  {
    assert IsWhitespace(' ') && !IsWhitespace('F') && !IsWhitespace('d');
    assert " Food"[0] == ' ' && " Food"[1..] == "Food" && "Food"[0] == 'F' && "Food"[3] == 'd';
    assert TrimStart("Food") == "Food";
    assert TrimStart(" Food") == "Food";
    assert TrimEnd("Food") == "Food";
  }

  /**
   * With the check on the trimmed name, a created shared envelope is the
   * only active shared envelope of its name.
   */
  lemma TrimmedCheckKeepsSharedUnique(rows: seq<Envelope>, name: string, e: Envelope)
    requires ExistingCheck(rows, name, None) == Ok(None)
    requires IsSharedNamed(e, name)
    ensures SharedByName(rows + [e], name) == Ok(Some(e))
  {
    var rows' := rows + [e];
    CountAppend(rows, e, SharedNamed(name));
    NoneShared(rows, name);
    assert SharedNamed(name)(e);
    assert Count(rows', SharedNamed(name)) == 1;
    assert forall x :: x in rows' && IsSharedNamed(x, name) ==> x == e;
  }

  lemma NoneShared(rows: seq<Envelope>, name: string)
    requires forall x :: x in rows ==> !IsSharedNamed(x, name)
    ensures Count(rows, SharedNamed(name)) == 0
  {
    FilterCount(rows, SharedNamed(name));
    var m := Filter(rows, SharedNamed(name));
    assert |m| == |multiset(m)|;
  }

  /** With the check on the trimmed name, a created individual envelope is the one its owner's lookup finds. */
  lemma TrimmedCheckFindsOwn(rows: seq<Envelope>, name: string, user: UserId, e: Envelope)
    requires ExistingCheck(rows, name, Some(user)) == Ok(None)
    requires IsOwnedNamed(e, name, user)
    ensures ByNameAndUser(rows + [e], name, user) == Some(e)
  {
    var rows' := rows + [e];
    assert rows'[|rows|] == e;
    var f := FirstIndex(rows', (x: Envelope) => IsOwnedNamed(x, name, user));
    assert f.Some? && f.value == |rows|;
  }

  /** `active_model.is_deleted = true; update`: the row with that id is marked deleted. */
  function MarkEnvelopeDeleted(rows: seq<Envelope>, id: nat): (r: seq<Envelope>)
    ensures |r| == |rows|
    ensures forall i :: 0 <= i < |rows| ==> r[i] == if rows[i].id == id then rows[i].(isDeleted := true) else rows[i]
  {
    seq(|rows|, i requires 0 <= i < |rows| => if rows[i].id == id then rows[i].(isDeleted := true) else rows[i])
  }

  /**
   * delete_envelope: the resolved envelope is marked deleted and nothing
   * else is written; an unknown name is a reply, a duplicate shared name an
   * error.
   */
  method DeleteEnvelopeCommand(db: Store, name: string, user: Option<UserId>, author: UserId)
    returns (r: Result<EnvelopeReply, Error>)
    modifies db
    ensures var found := Resolve(old(db.envelopes.rows), name, user.UnwrapOr(author));
      && (found.Err? ==> r == Err(found.error) && db.envelopes == old(db.envelopes))
      && (found.Ok? && found.value.None? ==> r == Ok(NotFound) && db.envelopes == old(db.envelopes))
      && (found.Ok? && found.value.Some? ==>
            && r == Ok(Deleted(found.value.value.(isDeleted := true)))
            && db.envelopes == old(db.envelopes).(rows := MarkEnvelopeDeleted(old(db.envelopes.rows), found.value.value.id)))
    ensures db.transactions == old(db.transactions) && db.products == old(db.products) && db.systemState == old(db.systemState)
    ensures old(db.Valid()) ==> db.Valid()
  {
    var found := Resolve(db.envelopes.rows, name, user.UnwrapOr(author));
    if found.Err? {
      return Err(found.error);
    }
    if found.value.None? {
      return Ok(NotFound);
    }
    var e := found.value.value;
    var after := db.envelopes.(rows := MarkEnvelopeDeleted(db.envelopes.rows, e.id));
    if db.Valid() {
      SameIdsKeepValid(db.envelopes, after, db.transactions);
    }
    db.envelopes := after;
    return Ok(Deleted(e.(isDeleted := true)));
  }

  /**
   * After a delete, no active row carries the id, no lookup of any name
   * returns it, and every other row is as it was.
   */
  lemma DeleteHides(rows: seq<Envelope>, id: nat, name: string, user: UserId)
    ensures var after := MarkEnvelopeDeleted(rows, id);
      && (forall e :: e in AllActive(after) ==> e.id != id)
      && (Resolve(after, name, user).Ok? && Resolve(after, name, user).value.Some? ==>
            Resolve(after, name, user).value.value.id != id)
      && (forall e :: e in rows && e.id != id ==> e in after)
  {
    var after := MarkEnvelopeDeleted(rows, id);
    forall e | e in after && e.id == id ensures e.isDeleted {
      var i :| 0 <= i < |after| && after[i] == e;
    }
    forall e | e in rows && e.id != id ensures e in after {
      var i :| 0 <= i < |rows| && rows[i] == e;
      assert after[i] == e;
    }
  }

  /** The fields update_envelope was given; an omitted one keeps its value. */
  function ApplyChanges(e: Envelope, allocation: Option<real>, rollover: Option<bool>, category: Option<string>): (r: Envelope)
    ensures r.allocation == allocation.UnwrapOr(e.allocation)
    ensures r.rollover == rollover.UnwrapOr(e.rollover)
    ensures r.category == category.UnwrapOr(e.category)
    ensures r.(allocation := e.allocation, rollover := e.rollover, category := e.category) == e
  {
    e.(allocation := allocation.UnwrapOr(e.allocation),
       rollover := rollover.UnwrapOr(e.rollover),
       category := category.UnwrapOr(e.category))
  }

  /** Applying the same changes twice is applying them once, and no changes leave the row as it is. */
  lemma ApplyChangesIdempotent(e: Envelope, allocation: Option<real>, rollover: Option<bool>, category: Option<string>)
    ensures ApplyChanges(ApplyChanges(e, allocation, rollover, category), allocation, rollover, category)
         == ApplyChanges(e, allocation, rollover, category)
    ensures ApplyChanges(e, None, None, None) == e
  {
  }

  /** The update of the row with that id. */
  function ReviseEnvelope(rows: seq<Envelope>, id: nat, allocation: Option<real>, rollover: Option<bool>, category: Option<string>)
    : (r: seq<Envelope>)
    ensures |r| == |rows|
    ensures forall i :: 0 <= i < |rows| ==> r[i] == if rows[i].id == id then ApplyChanges(rows[i], allocation, rollover, category) else rows[i]
  {
    seq(|rows|, i requires 0 <= i < |rows| =>
      if rows[i].id == id then ApplyChanges(rows[i], allocation, rollover, category) else rows[i])
  }

  predicate NoFields(allocation: Option<F64>, rollover: Option<bool>, category: Option<string>)
  {
    allocation.None? && rollover.None? && category.None?
  }

  /** The allocation update_envelope writes, once its checks have passed. */
  function GivenAllocation(allocation: Option<F64>): (r: Option<real>)
    ensures r.Some? <==> allocation.Some? && allocation.value.Num?
    ensures r.Some? ==> r.value == allocation.value.r
  {
    match allocation
    case Some(Num(a)) => Some(a)
    case _ => None
  }

  /**
   * update_envelope: at least one field is required; a given allocation
   * must be finite and not negative; the resolved envelope then gets the
   * given fields and keeps the others.
   */
  method UpdateEnvelopeCommand(db: Store, name: string, allocation: Option<F64>, rollover: Option<bool>,
                               category: Option<string>, user: Option<UserId>, author: UserId)
    returns (r: Result<EnvelopeReply, Error>)
    modifies db
    ensures NoFields(allocation, rollover, category) ==> r == Ok(NothingToUpdate) && db.envelopes == old(db.envelopes)
    ensures !NoFields(allocation, rollover, category) && allocation.Some? && IsNanOrInfinite(allocation.value) ==>
      r == Ok(InvalidAllocation) && db.envelopes == old(db.envelopes)
    ensures !NoFields(allocation, rollover, category) && allocation.Some? && IsFinite(allocation.value) && allocation.value.r < 0.0 ==>
      r == Ok(NegativeAllocation) && db.envelopes == old(db.envelopes)
    ensures !NoFields(allocation, rollover, category) && (allocation.Some? ==> IsFinite(allocation.value) && allocation.value.r >= 0.0) ==>
      var found := Resolve(old(db.envelopes.rows), name, user.UnwrapOr(author));
      && (found.Err? ==> r == Err(found.error) && db.envelopes == old(db.envelopes))
      && (found.Ok? && found.value.None? ==> r == Ok(NotFound) && db.envelopes == old(db.envelopes))
      && (found.Ok? && found.value.Some? ==>
            && r == Ok(Updated(ApplyChanges(found.value.value, GivenAllocation(allocation), rollover, category)))
            && db.envelopes == old(db.envelopes).(rows := ReviseEnvelope(old(db.envelopes.rows), found.value.value.id,
                                                                        GivenAllocation(allocation), rollover, category)))
    ensures db.transactions == old(db.transactions) && db.products == old(db.products) && db.systemState == old(db.systemState)
    ensures old(db.Valid()) ==> db.Valid()
  {
    if NoFields(allocation, rollover, category) {
      return Ok(NothingToUpdate);
    }
    if allocation.Some? {
      if IsNanOrInfinite(allocation.value) {
        return Ok(InvalidAllocation);
      }
      if allocation.value.r < 0.0 {
        return Ok(NegativeAllocation);
      }
    }
    var found := Resolve(db.envelopes.rows, name, user.UnwrapOr(author));
    if found.Err? {
      return Err(found.error);
    }
    if found.value.None? {
      return Ok(NotFound);
    }
    var e := found.value.value;
    var after := db.envelopes.(rows := ReviseEnvelope(db.envelopes.rows, e.id, GivenAllocation(allocation), rollover, category));
    if db.Valid() {
      SameIdsKeepValid(db.envelopes, after, db.transactions);
    }
    db.envelopes := after;
    return Ok(Updated(ApplyChanges(e, GivenAllocation(allocation), rollover, category)));
  }
}
