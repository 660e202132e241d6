/**
 * Envelope operations of the sea-orm generation (src/core/envelope.rs):
 * the lookups, the distinct categories, validated creation and the
 * additive balance update.
 */
module EnvelopeCore {
  import opened Wrappers
  import opened Text
  import opened Sorting
  import opened Floats
  import opened StoreV2

  // ----- lookups -----

  /** `ORDER BY name` */
  predicate NameLe(a: Envelope, b: Envelope)
  {
    StrLe(a.name, b.name)
  }

  lemma NameLeIsTotalPreorder()
    ensures IsTotalPreorder(NameLe)
  {
    forall a, b ensures NameLe(a, b) || NameLe(b, a) {
      StrLeTotal(a.name, b.name);
    }
    forall a, b, c | NameLe(a, b) && NameLe(b, c) ensures NameLe(a, c) {
      StrLeTrans(a.name, b.name, c.name);
    }
  }

  /** get_all_active_envelopes: the rows not soft-deleted, by name. */
  function AllActive(rows: seq<Envelope>): (r: seq<Envelope>)
    ensures multiset(r) == multiset(Filter(rows, (e: Envelope) => !e.isDeleted))
    ensures forall e :: e in r <==> e in rows && !e.isDeleted
    ensures SortedBy(r, NameLe)
  {
    NameLeIsTotalPreorder();
    var r := SortBy(Filter(rows, (e: Envelope) => !e.isDeleted), NameLe);
    assert forall e :: e in r <==> e in Filter(rows, (e: Envelope) => !e.isDeleted) by {
      forall e ensures e in r <==> e in Filter(rows, (e: Envelope) => !e.isDeleted) {
        assert e in r <==> e in multiset(r);
      }
    }
    r
  }

  /** The filter of get_shared_envelope_by_name: that name, active, not individual, no owner. */
  predicate IsSharedNamed(e: Envelope, name: string)
  {
    e.name == name && !e.isDeleted && !e.isIndividual && e.userId.None?
  }

  function SharedNamed(name: string): Envelope -> bool
  {
    e => IsSharedNamed(e, name)
  }

  /**
   * get_shared_envelope_by_name: no match gives `None`, one match gives
   * that row, and more than one is reported as `DuplicateSharedEnvelope`
   * with the number of matches.
   */
  function SharedByName(rows: seq<Envelope>, name: string): (r: Result<Option<Envelope>, Error>)
    ensures r == Ok(None) <==> forall e :: e in rows ==> !IsSharedNamed(e, name)
    ensures r.Ok? && r.value.Some? ==> r.value.value in rows && IsSharedNamed(r.value.value, name)
    ensures r.Ok? && r.value.Some? <==> Count(rows, SharedNamed(name)) == 1
    ensures r.Err? <==> Count(rows, SharedNamed(name)) > 1
    ensures r.Err? ==> r.error == DuplicateSharedEnvelope(name, Count(rows, SharedNamed(name)))
  {
    var matches := Filter(rows, SharedNamed(name));
    FilterCount(rows, SharedNamed(name));
    if |matches| == 0 then
      assert forall e :: e in rows ==> !IsSharedNamed(e, name) by {
        forall e | e in rows ensures !IsSharedNamed(e, name) {
          assert SharedNamed(name)(e) == IsSharedNamed(e, name);
        }
      }
      Ok(None)
    else if |matches| == 1 then
      assert matches[0] in matches;
      Ok(Some(matches[0]))
    else
      assert matches[0] in matches;
      Err(DuplicateSharedEnvelope(name, |matches|))
  }

  /** The filter of get_envelope_by_name_and_user: that name, that owner, active. */
  predicate IsOwnedNamed(e: Envelope, name: string, user: UserId)
  {
    e.name == name && e.userId == Some(user) && !e.isDeleted
  }

  /** get_envelope_by_name_and_user: the first active row of that name owned by `user`. */
  function ByNameAndUser(rows: seq<Envelope>, name: string, user: UserId): (r: Option<Envelope>)
    ensures r.Some? ==> r.value in rows && IsOwnedNamed(r.value, name, user)
    ensures r.None? <==> forall e :: e in rows ==> !IsOwnedNamed(e, name, user)
  {
    match FirstIndex(rows, (e: Envelope) => IsOwnedNamed(e, name, user))
    case Some(i) => Some(rows[i])
    case None => None
  }

  /** get_envelope_by_id (`find_by_id`): soft-deleted rows are found too. */
  function ById(rows: seq<Envelope>, id: nat): (r: Option<Envelope>)
    ensures r.Some? ==> r.value in rows && r.value.id == id
    ensures r.None? <==> forall e :: e in rows ==> e.id != id
  {
    match FirstIndex(rows, (e: Envelope) => e.id == id)
    case Some(i) => Some(rows[i])
    case None => None
  }

  /** In a table with distinct ids, the row found by id is the row at that position. */
  lemma ByIdAt(rows: seq<Envelope>, i: nat)
    requires forall i, j :: 0 <= i < j < |rows| ==> rows[i].id != rows[j].id
    requires i < |rows|
    ensures ById(rows, rows[i].id) == Some(rows[i])
  {
    var f := FirstIndex(rows, (e: Envelope) => e.id == rows[i].id);
    assert f.Some?;
  }

  // ----- categories -----

  function Categories(rows: seq<Envelope>): (r: seq<string>)
    ensures |r| == |rows|
    ensures forall i :: 0 <= i < |rows| ==> r[i] == rows[i].category
  {
    seq(|rows|, i requires 0 <= i < |rows| => rows[i].category)
  }

  lemma StrLeIsTotalPreorder()
    ensures IsTotalPreorder(StrLe)
  {
    forall a, b ensures StrLe(a, b) || StrLe(b, a) {
      StrLeTotal(a, b);
    }
    forall a, b, c | StrLe(a, b) && StrLe(b, c) ensures StrLe(a, c) {
      StrLeTrans(a, b, c);
    }
  }

  /**
   * get_all_categories: the categories of the active rows, sorted and with
   * duplicates removed; a category used only by soft-deleted rows is absent.
   */
  function AllCategories(rows: seq<Envelope>): (r: seq<string>)
    ensures forall c :: c in r <==> exists e :: e in rows && !e.isDeleted && e.category == c
    ensures forall i, j :: 0 <= i < j < |r| ==> StrLt(r[i], r[j])
  {
    var active := Filter(rows, (e: Envelope) => !e.isDeleted);
    var sorted := SortBy(Categories(active), StrLe);
    StrLeIsTotalPreorder();
    forall a, b | StrLe(a, b) && StrLe(b, a) ensures a == b {
      StrLeAntisym(a, b);
    }
    DedupSortedDistinct(sorted, StrLe);
    var r := Dedup(sorted);
    forall c ensures c in r <==> exists e :: e in rows && !e.isDeleted && e.category == c {
      assert c in sorted <==> c in multiset(sorted);
      if c in Categories(active) {
        var i :| 0 <= i < |active| && Categories(active)[i] == c;
        assert active[i] in active;
      }
      if e :| e in rows && !e.isDeleted && e.category == c {
        assert e in active;
        var i :| 0 <= i < |active| && active[i] == e;
        assert Categories(active)[i] == c;
      }
    }
    r
  }

  // ----- creation -----

  const EmptyNameMessage := "Envelope name cannot be empty"

  /**
   * The checks of create_envelope, in order: a blank name, then
   * `allocation < 0.0`, then an individual envelope without an owner.
   */
  function CreateRefusal(name: string, userId: Option<UserId>, allocation: F64, isIndividual: bool): (r: Option<Error>)
    ensures r.None? <==> !IsBlank(name) && !Below(allocation, 0.0) && (isIndividual ==> userId.Some?)
    ensures IsBlank(name) ==> r == Some(Config(EmptyNameMessage))
    ensures !IsBlank(name) && Below(allocation, 0.0) ==> r == Some(InvalidAmount(allocation))
    ensures !IsBlank(name) && !Below(allocation, 0.0) && isIndividual && userId.None? ==>
      r == Some(IndividualEnvelopeWithoutUser(Trim(name)))
  {
    TrimEmptyIffBlank(name);
    if Trim(name) == [] then Some(Config(EmptyNameMessage))
    else if Below(allocation, 0.0) then Some(InvalidAmount(allocation))
    else if isIndividual && userId.None? then Some(IndividualEnvelopeWithoutUser(Trim(name)))
    else None
  }

  /** `allocation < 0.0` is false for NaN and +inf: the core lets them through (the bot checks them first). */
  lemma CreateLetsNonFiniteThrough(name: string)
    requires !IsBlank(name)
    ensures CreateRefusal(name, None, NaN, false).None?
    ensures CreateRefusal(name, None, PosInf, false).None?
    ensures CreateRefusal(name, None, NegInf, false) == Some(InvalidAmount(NegInf))
  {
  }

  /**
   * create_envelope: after the checks, one row is inserted with the trimmed
   * name, balance 0 and `is_deleted = false`.
   */
  method CreateEnvelope(db: Store, name: string, userId: Option<UserId>, category: string,
                        allocation: real, isIndividual: bool, rollover: bool)
    returns (r: Result<Envelope, Error>)
    modifies db
    ensures r.Err? <==> CreateRefusal(name, userId, Num(allocation), isIndividual).Some?
    ensures r.Err? ==> r.error == CreateRefusal(name, userId, Num(allocation), isIndividual).value && db.envelopes == old(db.envelopes)
    ensures r.Ok? ==>
      && r.value == Envelope(old(db.envelopes.nextId), Trim(name), category, allocation, 0.0, isIndividual, userId, rollover, false)
      && db.envelopes == Table(old(db.envelopes.rows) + [r.value], old(db.envelopes.nextId) + 1)
    ensures db.transactions == old(db.transactions) && db.products == old(db.products) && db.systemState == old(db.systemState)
    ensures old(db.Valid()) ==> db.Valid()
  {
    var refusal := CreateRefusal(name, userId, Num(allocation), isIndividual);
    if refusal.Some? {
      return Err(refusal.value);
    }
    var e := Envelope(db.envelopes.nextId, Trim(name), category, allocation, 0.0, isIndividual, userId, rollover, false);
    InsertEnvelope(db, e);
    return Ok(e);
  }

  /** The name a created envelope gets is not empty, and trimming it again keeps it. */
  lemma TrimmedNameKept(name: string)
    requires !IsBlank(name)
    ensures Trim(name) != [] && Trim(Trim(name)) == Trim(name)
  {
    TrimEmptyIffBlank(name);
    TrimIdempotent(name);
  }

  /** The INSERT itself: the row goes at the end under the next id. */
  method InsertEnvelope(db: Store, e: Envelope)
    requires e.id == db.envelopes.nextId
    modifies db
    ensures db.envelopes == Table(old(db.envelopes.rows) + [e], old(db.envelopes.nextId) + 1)
    ensures db.transactions == old(db.transactions) && db.products == old(db.products) && db.systemState == old(db.systemState)
    ensures old(db.Valid()) ==> db.Valid()
  {
    if db.Valid() {
      InsertKeepsValid(db.envelopes, db.transactions, e);
    }
    db.envelopes := Table(db.envelopes.rows + [e], db.envelopes.nextId + 1);
  }

  /** Inserting a row with the next id keeps the ids valid and every reference to an envelope. */
  lemma InsertKeepsValid(t: Table<Envelope>, log: Table<Transaction>, e: Envelope)
    requires EnvelopeIdsValid(t) && TransactionsValid(log, t.rows) && e.id == t.nextId
    ensures EnvelopeIdsValid(Table(t.rows + [e], t.nextId + 1))
    ensures TransactionsValid(log, t.rows + [e])
  {
    AppendKeepsReferences(t.rows, e);
  }

  // ----- balance -----

  /** `UPDATE envelopes SET balance = balance + delta WHERE id = ?` */
  function AddToBalance(rows: seq<Envelope>, id: nat, delta: real): (r: seq<Envelope>)
    ensures |r| == |rows|
    ensures forall i :: 0 <= i < |rows| ==> r[i] == if rows[i].id == id then rows[i].(balance := rows[i].balance + delta) else rows[i]
  {
    seq(|rows|, i requires 0 <= i < |rows| => if rows[i].id == id then rows[i].(balance := rows[i].balance + delta) else rows[i])
  }

  /** Two updates of one envelope add up: 0, +75, +25, -30 gives 70. */
  lemma AddToBalanceCompose(rows: seq<Envelope>, id: nat, a: real, b: real)
    ensures AddToBalance(AddToBalance(rows, id, a), id, b) == AddToBalance(rows, id, a + b)
  {
  }

  /** Adding the negated delta undoes an update exactly. */
  lemma AddToBalanceInverse(rows: seq<Envelope>, id: nat, delta: real)
    ensures AddToBalance(AddToBalance(rows, id, delta), id, -delta) == rows
  {
    var r := AddToBalance(AddToBalance(rows, id, delta), id, -delta);
    forall i | 0 <= i < |rows| ensures r[i] == rows[i] {
      if rows[i].id == id {
        assert r[i].balance == rows[i].balance;
      }
    }
  }

  /** The row found by id after an update is the row found before, with the delta added. */
  lemma ByIdAfterAdd(rows: seq<Envelope>, id: nat, delta: real)
    ensures ById(AddToBalance(rows, id, delta), id) ==
      if ById(rows, id).Some? then Some(ById(rows, id).value.(balance := ById(rows, id).value.balance + delta)) else None
  {
    var r := AddToBalance(rows, id, delta);
    var f := FirstIndex(rows, (e: Envelope) => e.id == id);
    var g := FirstIndex(r, (e: Envelope) => e.id == id);
    assert forall i :: 0 <= i < |rows| ==> r[i].id == rows[i].id;
    if f.Some? {
      assert r[f.value].id == id;
      assert g.Some? && g.value == f.value;
    }
  }

  /**
   * update_envelope_balance_atomic: adds the delta to the stored balance in
   * one statement and returns the row read back; an id with no row gives
   * `EnvelopeNotFound` (after an update that touched nothing).
   */
  method UpdateEnvelopeBalanceAtomic(db: Store, id: nat, delta: real) returns (r: Result<Envelope, Error>)
    modifies db
    ensures db.envelopes == old(db.envelopes).(rows := AddToBalance(old(db.envelopes.rows), id, delta))
    ensures r.Ok? <==> ById(old(db.envelopes.rows), id).Some?
    ensures r.Ok? ==> r.value == ById(old(db.envelopes.rows), id).value.(balance := ById(old(db.envelopes.rows), id).value.balance + delta)
    ensures r.Err? ==> r.error == EnvelopeNotFound(IdText(id))
    ensures db.transactions == old(db.transactions) && db.products == old(db.products) && db.systemState == old(db.systemState)
    ensures old(db.Valid()) ==> db.Valid()
  {
    ghost var before := db.envelopes.rows;
    db.envelopes := db.envelopes.(rows := AddToBalance(db.envelopes.rows, id, delta));
    SameIdsKeepReferences(before, db.envelopes.rows);
    ByIdAfterAdd(before, id, delta);
    var found := ById(db.envelopes.rows, id);
    if found.None? {
      return Err(EnvelopeNotFound(IdText(id)));
    }
    return Ok(found.value);
  }
}
