/**
 * The envelope store of the rusqlite generation (src/db/envelopes.rs, and
 * its older copy in src/db.rs): seeding from configuration, creating or
 * re-enabling an envelope with optional attributes, owner-aware lookup,
 * soft delete and balance writes.
 */
module EnvelopesV1 {
  import opened Wrappers
  import opened Text
  import opened Sorting
  import opened StoreV1

  // ----- queries -----

  /** SQL's `IFNULL(user_id, '')` */
  function IfNull(u: Option<UserId>): string
  {
    u.UnwrapOr("")
  }

  /**
   * The lookup of manage_envelope_instance_in_transaction:
   * `name = ? AND IFNULL(user_id, '') = IFNULL(?, '') AND is_individual = ? AND is_deleted = ?`.
   */
  predicate InstanceMatch(e: Envelope, name: string, owner: Option<UserId>, individual: bool, deleted: bool)
  {
    e.name == name && IfNull(e.userId) == IfNull(owner) && e.isIndividual == individual && e.isDeleted == deleted
  }

  /** On rows that keep the individual-iff-owner invariant, the IFNULL lookup is a lookup by key. */
  lemma InstanceMatchIsKey(e: Envelope, name: string, owner: Option<UserId>, deleted: bool)
    requires e.isIndividual <==> e.userId.Some?
    ensures InstanceMatch(e, name, owner, owner.Some?, deleted) <==> HasKey(e, name, owner) && e.isDeleted == deleted
  {
  }

  /** Some row, active or soft-deleted, holds this key. */
  predicate KeyTaken(rows: seq<Envelope>, name: string, owner: Option<UserId>)
  {
    exists i :: 0 <= i < |rows| && HasKey(rows[i], name, owner)
  }

  predicate ActiveWithKey(rows: seq<Envelope>, name: string, owner: Option<UserId>)
  {
    exists i :: 0 <= i < |rows| && HasKey(rows[i], name, owner) && !rows[i].isDeleted
  }

  /** An `INSERT INTO envelopes`: refused when the name and owner are taken, else the row gets the next id. */
  function InsertEnvelope(t: Table<Envelope>, e: Envelope): (r: Result<Table<Envelope>, Error>)
    ensures r.Err? <==> KeyTaken(t.rows, e.name, e.userId)
    ensures r.Ok? ==> r.value == Table(t.rows + [e.(id := t.nextId)], t.nextId + 1)
  {
    if exists i :: 0 <= i < |t.rows| && HasKey(t.rows[i], e.name, e.userId) then Err(UniqueViolation(EnvelopeNameIndex))
    else Ok(Table(t.rows + [e.(id := t.nextId)], t.nextId + 1))
  }

  /**
   * get_user_or_shared_envelope: among active rows of that name, the caller's
   * own row, else the shared one (`ORDER BY user_id DESC` puts NULL last).
   */
  function UserOrShared(rows: seq<Envelope>, name: string, user: UserId): (r: Option<Envelope>)
    ensures r.Some? ==> r.value in rows && r.value.name == name && !r.value.isDeleted
    ensures r.Some? ==> r.value.userId == Some(user) || r.value.userId == None
    ensures ActiveWithKey(rows, name, Some(user)) ==> r.Some? && r.value.userId == Some(user)
    ensures r.None? <==> !ActiveWithKey(rows, name, Some(user)) && !ActiveWithKey(rows, name, None)
  {
    match FirstIndex(rows, (e: Envelope) => HasKey(e, name, Some(user)) && !e.isDeleted)
    case Some(i) => Some(rows[i])
    case None =>
      match FirstIndex(rows, (e: Envelope) => HasKey(e, name, None) && !e.isDeleted)
      case Some(i) => Some(rows[i])
      case None => None
  }

  /** On a valid table the lookup never hands out another user's individual envelope. */
  lemma UserOrSharedNeverForeign(t: Table<Envelope>, name: string, user: UserId)
    requires EnvelopesValid(t)
    ensures var r := UserOrShared(t.rows, name, user);
      r.Some? && r.value.isIndividual ==> r.value.userId == Some(user)
  {
    var r := UserOrShared(t.rows, name, user);
    if r.Some? {
      var i :| 0 <= i < |t.rows| && t.rows[i] == r.value;
    }
  }

  /** get_envelope_by_id: the active row with that id. */
  function ActiveById(rows: seq<Envelope>, id: nat): (r: Option<Envelope>)
    ensures r.Some? ==> r.value in rows && r.value.id == id && !r.value.isDeleted
    ensures r.None? ==> forall e :: e in rows && e.id == id ==> e.isDeleted
  {
    match FirstIndex(rows, (e: Envelope) => e.id == id && !e.isDeleted)
    case Some(i) => Some(rows[i])
    case None => None
  }

  /** `ORDER BY name, user_id`: by name, then by owner with NULL first. */
  predicate EnvelopeLe(a: Envelope, b: Envelope)
  {
    StrLt(a.name, b.name) || (a.name == b.name && OwnerLe(a.userId, b.userId))
  }

  predicate OwnerLe(a: Option<UserId>, b: Option<UserId>)
  {
    a.None? || (b.Some? && StrLe(a.value, b.value))
  }

  lemma EnvelopeLeIsTotalPreorder()
    ensures IsTotalPreorder(EnvelopeLe)
  {
    forall a, b ensures EnvelopeLe(a, b) || EnvelopeLe(b, a) {
      StrLeTotal(a.name, b.name);
      if a.name == b.name && a.userId.Some? && b.userId.Some? {
        StrLeTotal(a.userId.value, b.userId.value);
      }
    }
    forall a, b, c | EnvelopeLe(a, b) && EnvelopeLe(b, c) ensures EnvelopeLe(a, c) {
      if a.name == b.name && b.name == c.name {
        if a.userId.Some? && b.userId.Some? && c.userId.Some? {
          StrLeTrans(a.userId.value, b.userId.value, c.userId.value);
        }
      } else if a.name != b.name && b.name != c.name {
        StrLeTrans(a.name, b.name, c.name);
        if a.name == c.name {
          StrLeAntisym(a.name, b.name);
        }
      }
    }
  }

  /** get_all_active_envelopes: the active rows in `ORDER BY name, user_id` order. */
  function AllActive(rows: seq<Envelope>): (r: seq<Envelope>)
    ensures multiset(r) == multiset(Filter(rows, (e: Envelope) => !e.isDeleted))
    ensures forall e :: e in r <==> e in rows && !e.isDeleted
    ensures SortedBy(r, EnvelopeLe)
  {
    EnvelopeLeIsTotalPreorder();
    var r := SortBy(Filter(rows, (e: Envelope) => !e.isDeleted), EnvelopeLe);
    assert forall e :: e in r <==> e in Filter(rows, (e: Envelope) => !e.isDeleted) by {
      forall e ensures e in r <==> e in Filter(rows, (e: Envelope) => !e.isDeleted) {
        assert e in r <==> e in multiset(r);
      }
    }
    r
  }

  /** update_envelope_balance: `UPDATE envelopes SET balance = ? WHERE id = ?`, deleted rows included. */
  function WithBalance(rows: seq<Envelope>, id: nat, balance: real): (r: seq<Envelope>)
    ensures |r| == |rows|
    ensures forall i :: 0 <= i < |rows| ==> r[i] == if rows[i].id == id then rows[i].(balance := balance) else rows[i]
  {
    seq(|rows|, i requires 0 <= i < |rows| => if rows[i].id == id then rows[i].(balance := balance) else rows[i])
  }

  /** A balance write keeps the table valid: it touches no key, id or flag. */
  lemma WithBalanceValid(t: Table<Envelope>, id: nat, balance: real)
    requires EnvelopesValid(t)
    ensures EnvelopesValid(t.(rows := WithBalance(t.rows, id, balance)))
  {
    var r := WithBalance(t.rows, id, balance);
    forall i, j | 0 <= i < j < |r| ensures !HasKey(r[j], r[i].name, r[i].userId) {
      assert !HasKey(t.rows[j], t.rows[i].name, t.rows[i].userId);
    }
  }

  // ----- create or re-enable -----

  /** EnvelopeInstanceOptionalArgs: one instance, shared (`userId == None`) or one user's. */
  datatype InstanceArgs = InstanceArgs(
    name: string,
    category: Option<string>,
    allocation: Option<real>,
    isIndividual: Option<bool>,
    userId: Option<UserId>,
    rollover: Option<bool>)

  /** What manage_envelope_instance_in_transaction reports: "(Skipped)", "Re-enabled", "Created new". */
  datatype InstanceOutcome = Skipped(id: nat) | Reenabled(id: nat) | Created(id: nat)

  /**
   * manage_envelope_instance_in_transaction: leave an active instance as it
   * is, re-enable a soft-deleted one (keeping its old attributes where the
   * arguments give none and resetting the balance to the allocation), or
   * insert a new one with the defaults "uncategorized", 0 and no rollover.
   */
  function Manage(t: Table<Envelope>, a: InstanceArgs): Result<(Table<Envelope>, InstanceOutcome), Error>
  {
    var target := a.userId.Some?;
    match FirstIndex(t.rows, (e: Envelope) => InstanceMatch(e, a.name, a.userId, target, false))
    case Some(i) => Ok((t, Skipped(t.rows[i].id)))
    case None =>
      match FirstIndex(t.rows, (e: Envelope) => InstanceMatch(e, a.name, a.userId, target, true))
      case Some(i) =>
        var old_ := t.rows[i];
        if a.isIndividual.Some? && a.isIndividual.value != old_.isIndividual then
          Err(IndividualFlagMismatch)
        else
          var allocation := a.allocation.UnwrapOr(old_.allocation);
          var e := old_.(category := a.category.UnwrapOr(old_.category), allocation := allocation,
                         balance := allocation, rollover := a.rollover.UnwrapOr(old_.rollover), isDeleted := false);
          Ok((t.(rows := t.rows[i := e]), Reenabled(old_.id)))
      case None =>
        var individual := a.isIndividual.UnwrapOr(target);
        if individual != target then
          Err(IndividualFlagMismatch)
        else
          var allocation := a.allocation.UnwrapOr(0.0);
          var e := Envelope(t.nextId, a.name, a.category.UnwrapOr("uncategorized"), allocation, allocation,
                            individual, a.userId, a.rollover.UnwrapOr(false), false);
          match InsertEnvelope(t, e)
          case Ok(t') => Ok((t', Created(t.nextId)))
          case Err(err) => Err(err)
  }

  /** The arguments create_or_reenable_envelope_flexible passes: the flag agrees with the owner. */
  predicate Consistent(a: InstanceArgs)
  {
    a.isIndividual == Some(a.userId.Some?)
  }

  /** An active instance with the requested name and owner is left untouched. */
  lemma ManageSkipsActive(t: Table<Envelope>, a: InstanceArgs, i: nat)
    requires EnvelopesValid(t) && i < |t.rows| && HasKey(t.rows[i], a.name, a.userId) && !t.rows[i].isDeleted
    ensures Manage(t, a) == Ok((t, Skipped(t.rows[i].id)))
  {
    var target := a.userId.Some?;
    InstanceMatchIsKey(t.rows[i], a.name, a.userId, false);
    var k := FirstIndex(t.rows, (e: Envelope) => InstanceMatch(e, a.name, a.userId, target, false));
    assert k.Some?;
    InstanceMatchIsKey(t.rows[k.value], a.name, a.userId, false);
    KeyUnique(t, i, k.value);
  }

  /**
   * A soft-deleted instance with the requested name and owner comes back
   * active: omitted attributes keep their old values, the balance becomes
   * the effective allocation, and no other row changes.
   */
  lemma ManageReenablesDeleted(t: Table<Envelope>, a: InstanceArgs, i: nat)
    requires EnvelopesValid(t) && i < |t.rows| && HasKey(t.rows[i], a.name, a.userId) && t.rows[i].isDeleted
    requires a.isIndividual.None? || Consistent(a)
    ensures Manage(t, a).Ok?
    ensures var (t', o) := Manage(t, a).value;
      var old_, e := t.rows[i], t'.rows[i];
      && o == Reenabled(old_.id) && t'.nextId == t.nextId && |t'.rows| == |t.rows|
      && (forall j :: 0 <= j < |t.rows| && j != i ==> t'.rows[j] == t.rows[j])
      && e.id == old_.id && e.name == old_.name && e.userId == old_.userId && e.isIndividual == old_.isIndividual
      && e.category == a.category.UnwrapOr(old_.category)
      && e.allocation == a.allocation.UnwrapOr(old_.allocation)
      && e.balance == e.allocation
      && e.rollover == a.rollover.UnwrapOr(old_.rollover)
      && !e.isDeleted
  {
    var target := a.userId.Some?;
    forall j | 0 <= j < |t.rows| ensures !InstanceMatch(t.rows[j], a.name, a.userId, target, false) {
      InstanceMatchIsKey(t.rows[j], a.name, a.userId, false);
      if HasKey(t.rows[j], a.name, a.userId) {
        KeyUnique(t, i, j);
      }
    }
    InstanceMatchIsKey(t.rows[i], a.name, a.userId, true);
    var k := FirstIndex(t.rows, (e: Envelope) => InstanceMatch(e, a.name, a.userId, target, true));
    assert k.Some?;
    InstanceMatchIsKey(t.rows[k.value], a.name, a.userId, true);
    KeyUnique(t, i, k.value);
  }

  /**
   * With no row of that name and owner, a new active row is appended with the
   * next id, the owner's flag, the given attributes or the defaults
   * "uncategorized", 0 and no rollover, and a balance equal to its allocation.
   */
  lemma ManageCreatesNew(t: Table<Envelope>, a: InstanceArgs)
    requires EnvelopesValid(t) && !KeyTaken(t.rows, a.name, a.userId)
    requires a.isIndividual.None? || Consistent(a)
    ensures Manage(t, a).Ok?
    ensures var (t', o) := Manage(t, a).value;
      && o == Created(t.nextId) && t'.nextId == t.nextId + 1 && |t'.rows| == |t.rows| + 1
      && t'.rows[..|t.rows|] == t.rows
      && var e := t'.rows[|t.rows|];
      && e.id == t.nextId && e.name == a.name && e.userId == a.userId && e.isIndividual == a.userId.Some?
      && e.category == a.category.UnwrapOr("uncategorized")
      && e.allocation == a.allocation.UnwrapOr(0.0)
      && e.balance == e.allocation
      && e.rollover == a.rollover.UnwrapOr(false)
      && !e.isDeleted
  {
    var target := a.userId.Some?;
    forall j | 0 <= j < |t.rows|
      ensures !InstanceMatch(t.rows[j], a.name, a.userId, target, false)
      ensures !InstanceMatch(t.rows[j], a.name, a.userId, target, true)
    {
      InstanceMatchIsKey(t.rows[j], a.name, a.userId, false);
      InstanceMatchIsKey(t.rows[j], a.name, a.userId, true);
    }
  }

  /** Asking to turn a shared instance into an individual one, or back, is refused with an error. */
  lemma ManageRefusesFlagChange(t: Table<Envelope>, a: InstanceArgs)
    requires EnvelopesValid(t) && !ActiveWithKey(t.rows, a.name, a.userId)
    requires a.isIndividual == Some(!a.userId.Some?)
    ensures Manage(t, a) == Err(IndividualFlagMismatch)
  {
    var target := a.userId.Some?;
    forall j | 0 <= j < |t.rows| ensures !InstanceMatch(t.rows[j], a.name, a.userId, target, false) {
      InstanceMatchIsKey(t.rows[j], a.name, a.userId, false);
    }
    var k := FirstIndex(t.rows, (e: Envelope) => InstanceMatch(e, a.name, a.userId, target, true));
    if k.Some? {
      InstanceMatchIsKey(t.rows[k.value], a.name, a.userId, true);
    }
  }

  /** Every successful call keeps the table valid and leaves an active row with the requested name and owner. */
  lemma ManagePreservesValid(t: Table<Envelope>, a: InstanceArgs)
    requires EnvelopesValid(t) && Manage(t, a).Ok?
    ensures EnvelopesValid(Manage(t, a).value.0)
    ensures ActiveWithKey(Manage(t, a).value.0.rows, a.name, a.userId)
  {
    var target := a.userId.Some?;
    var (t', o) := Manage(t, a).value;
    var act := FirstIndex(t.rows, (e: Envelope) => InstanceMatch(e, a.name, a.userId, target, false));
    if act.Some? {
      InstanceMatchIsKey(t.rows[act.value], a.name, a.userId, false);
    } else {
      var del := FirstIndex(t.rows, (e: Envelope) => InstanceMatch(e, a.name, a.userId, target, true));
      if del.Some? {
        var i := del.value;
        InstanceMatchIsKey(t.rows[i], a.name, a.userId, true);
        assert t' == t.(rows := t.rows[i := t'.rows[i]]);
        ReplaceRowKeepsValid(t, i, t'.rows[i]);
        assert HasKey(t'.rows[i], a.name, a.userId) && !t'.rows[i].isDeleted;
      } else {
        var n := |t.rows|;
        assert t' == Table(t.rows + [t'.rows[n]], t.nextId + 1);
        AppendRowKeepsValid(t, t'.rows[n]);
        assert HasKey(t'.rows[n], a.name, a.userId) && !t'.rows[n].isDeleted;
      }
    }
  }

  /** Rewriting a row in place, with its id, name, owner and flag kept, keeps the table valid. */
  lemma ReplaceRowKeepsValid(t: Table<Envelope>, i: nat, e: Envelope)
    requires EnvelopesValid(t) && i < |t.rows|
    requires e.id == t.rows[i].id && e.name == t.rows[i].name && e.userId == t.rows[i].userId && e.isIndividual == t.rows[i].isIndividual
    ensures EnvelopesValid(t.(rows := t.rows[i := e]))
  {
    var rows := t.rows[i := e];
    forall p, q | 0 <= p < q < |rows| ensures !HasKey(rows[q], rows[p].name, rows[p].userId) {
      assert !HasKey(t.rows[q], t.rows[p].name, t.rows[p].userId);
    }
  }

  /** Appending a row under the next id, with a key no row holds, keeps the table valid. */
  lemma AppendRowKeepsValid(t: Table<Envelope>, e: Envelope)
    requires EnvelopesValid(t) && e.id == t.nextId && (e.isIndividual <==> e.userId.Some?)
    requires !KeyTaken(t.rows, e.name, e.userId)
    ensures EnvelopesValid(Table(t.rows + [e], t.nextId + 1))
  {
    var rows, n := t.rows + [e], |t.rows|;
    forall p, q | 0 <= p < q < |rows| ensures !HasKey(rows[q], rows[p].name, rows[p].userId) {
      if q < n {
        assert !HasKey(t.rows[q], t.rows[p].name, t.rows[p].userId);
      } else {
        assert rows[p] == t.rows[p];
      }
    }
  }

  /** Consistent arguments on a valid table always succeed. */
  lemma ManageConsistentSucceeds(t: Table<Envelope>, a: InstanceArgs)
    requires EnvelopesValid(t) && Consistent(a)
    ensures Manage(t, a).Ok?
  {
    if i :| 0 <= i < |t.rows| && HasKey(t.rows[i], a.name, a.userId) {
      if t.rows[i].isDeleted {
        ManageReenablesDeleted(t, a, i);
      } else {
        ManageSkipsActive(t, a, i);
      }
    } else {
      ManageCreatesNew(t, a);
    }
  }

  /** Rows with another name or owner are left as they are. */
  lemma ManageKeepsOtherRows(t: Table<Envelope>, a: InstanceArgs)
    requires EnvelopesValid(t) && Manage(t, a).Ok?
    ensures var t' := Manage(t, a).value.0;
      |t'.rows| >= |t.rows| && forall j :: 0 <= j < |t.rows| && !HasKey(t.rows[j], a.name, a.userId) ==> t'.rows[j] == t.rows[j]
  {
    var target := a.userId.Some?;
    var act := FirstIndex(t.rows, (e: Envelope) => InstanceMatch(e, a.name, a.userId, target, false));
    if act.None? {
      var del := FirstIndex(t.rows, (e: Envelope) => InstanceMatch(e, a.name, a.userId, target, true));
      if del.Some? {
        InstanceMatchIsKey(t.rows[del.value], a.name, a.userId, true);
      }
    }
  }

  /** CreateUpdateEnvelopeArgs: the /envelope create request. */
  datatype CreateArgs = CreateArgs(
    name: string,
    category: Option<string>,
    allocation: Option<real>,
    isIndividual: Option<bool>,
    rollover: Option<bool>)

  function SharedInstance(c: CreateArgs): InstanceArgs
  {
    InstanceArgs(c.name, c.category, c.allocation, Some(false), None, c.rollover)
  }

  function UserInstance(c: CreateArgs, user: UserId): InstanceArgs
  {
    InstanceArgs(c.name, c.category, c.allocation, Some(true), Some(user), c.rollover)
  }

  /**
   * create_or_reenable_envelope_flexible: one shared instance, or the two
   * users' instances in turn (user 1, then user 2); an error from any
   * instance aborts the whole store transaction.
   */
  function CreateOrReenable(t: Table<Envelope>, c: CreateArgs, user1: UserId, user2: UserId): Result<(Table<Envelope>, seq<InstanceOutcome>), Error>
  {
    if c.isIndividual.UnwrapOr(false) then
      match Manage(t, UserInstance(c, user1))
      case Err(e) => Err(e)
      case Ok((t1, o1)) =>
        match Manage(t1, UserInstance(c, user2))
        case Err(e) => Err(e)
        case Ok((t2, o2)) => Ok((t2, [o1, o2]))
    else
      match Manage(t, SharedInstance(c))
      case Err(e) => Err(e)
      case Ok((t1, o1)) => Ok((t1, [o1]))
  }

  /**
   * On a valid table the request always commits and keeps the table valid:
   * an individual request leaves both users' rows of that name active, a
   * shared one the shared row, and rows with other names are untouched.
   */
  lemma {:induction false} CreateOrReenableCommits(t: Table<Envelope>, c: CreateArgs, user1: UserId, user2: UserId)
    requires EnvelopesValid(t)
    ensures CreateOrReenable(t, c, user1, user2).Ok?
    ensures var (t', outs) := CreateOrReenable(t, c, user1, user2).value;
      && EnvelopesValid(t')
      && |outs| == (if c.isIndividual.UnwrapOr(false) then 2 else 1)
      && (c.isIndividual.UnwrapOr(false) ==> ActiveWithKey(t'.rows, c.name, Some(user1)) && ActiveWithKey(t'.rows, c.name, Some(user2)))
      && (!c.isIndividual.UnwrapOr(false) ==> ActiveWithKey(t'.rows, c.name, None))
      && |t'.rows| >= |t.rows| && (forall j :: 0 <= j < |t.rows| && t.rows[j].name != c.name ==> t'.rows[j] == t.rows[j])
  {
    if c.isIndividual.UnwrapOr(false) {
      var a1, a2 := UserInstance(c, user1), UserInstance(c, user2);
      ManageConsistentSucceeds(t, a1);
      ManagePreservesValid(t, a1);
      ManageKeepsOtherRows(t, a1);
      var t1 := Manage(t, a1).value.0;
      ManageConsistentSucceeds(t1, a2);
      ManagePreservesValid(t1, a2);
      ManageKeepsOtherRows(t1, a2);
      var t2 := Manage(t1, a2).value.0;
      StillActive(t1, t2, a2, c.name, Some(user1));
    } else {
      var a := SharedInstance(c);
      ManageConsistentSucceeds(t, a);
      ManagePreservesValid(t, a);
      ManageKeepsOtherRows(t, a);
    }
  }

  /** A successful instance step never deactivates a row. */
  lemma StillActive(t: Table<Envelope>, t': Table<Envelope>, a: InstanceArgs, name: string, owner: Option<UserId>)
    requires EnvelopesValid(t) && Manage(t, a).Ok? && t' == Manage(t, a).value.0
    requires ActiveWithKey(t.rows, name, owner)
    ensures ActiveWithKey(t'.rows, name, owner)
  {
    var i :| 0 <= i < |t.rows| && HasKey(t.rows[i], name, owner) && !t.rows[i].isDeleted;
    ManageKeepsOtherRows(t, a);
    if HasKey(t.rows[i], a.name, a.userId) {
      ManageSkipsActive(t, a, i);
    } else {
      assert t'.rows[i] == t.rows[i];
    }
  }

  // ----- seeding -----

  /** One `[[envelopes]]` entry of the configuration file. */
  datatype EnvelopeConfig = EnvelopeConfig(
    name: string,
    category: string,
    allocation: real,
    isIndividual: bool,
    rollover: bool)

  /**
   * One instance of seed_initial_envelopes: skip an active row of that name and
   * owner, else re-enable a soft-deleted one with the configured attributes
   * and its balance reset to the allocation, else insert a new row.
   */
  function SeedInstance(t: Table<Envelope>, c: EnvelopeConfig, owner: Option<UserId>): Table<Envelope>
  {
    match FirstIndex(t.rows, (e: Envelope) => HasKey(e, c.name, owner) && !e.isDeleted)
    case Some(_) => t
    case None =>
      match FirstIndex(t.rows, (e: Envelope) => HasKey(e, c.name, owner) && e.isDeleted)
      case Some(i) =>
        t.(rows := t.rows[i := t.rows[i].(category := c.category, allocation := c.allocation,
                                           balance := c.allocation, rollover := c.rollover, isDeleted := false)])
      case None =>
        Table(t.rows + [Envelope(t.nextId, c.name, c.category, c.allocation, c.allocation, owner.Some?, owner, c.rollover, false)],
              t.nextId + 1)
  }

  /** The owners one configuration entry is seeded for: both users, or the shared NULL owner. */
  function Owners(c: EnvelopeConfig, user1: UserId, user2: UserId): seq<Option<UserId>>
  {
    if c.isIndividual then [Some(user1), Some(user2)] else [None]
  }

  function SeedOwners(t: Table<Envelope>, c: EnvelopeConfig, owners: seq<Option<UserId>>): Table<Envelope>
  {
    if owners == [] then t else SeedInstance(SeedOwners(t, c, owners[..|owners| - 1]), c, owners[|owners| - 1])
  }

  /** seed_initial_envelopes over a whole configuration, entry by entry. */
  function Seed(t: Table<Envelope>, configs: seq<EnvelopeConfig>, user1: UserId, user2: UserId): Table<Envelope>
  {
    if configs == [] then t
    else
      var c := configs[|configs| - 1];
      SeedOwners(Seed(t, configs[..|configs| - 1], user1, user2), c, Owners(c, user1, user2))
  }

  /** Seeding an instance whose row is active changes nothing. */
  lemma SeedKeepsActive(t: Table<Envelope>, c: EnvelopeConfig, owner: Option<UserId>)
    requires ActiveWithKey(t.rows, c.name, owner)
    ensures SeedInstance(t, c, owner) == t
  {
    var i :| 0 <= i < |t.rows| && HasKey(t.rows[i], c.name, owner) && !t.rows[i].isDeleted;
    var k := FirstIndex(t.rows, (e: Envelope) => HasKey(e, c.name, owner) && !e.isDeleted);
    assert k.Some?;
  }

  /** Seeding an instance whose row is soft-deleted re-activates it with the configured values. */
  lemma SeedReactivates(t: Table<Envelope>, c: EnvelopeConfig, owner: Option<UserId>, i: nat)
    requires EnvelopesValid(t) && i < |t.rows| && HasKey(t.rows[i], c.name, owner) && t.rows[i].isDeleted
    ensures var t' := SeedInstance(t, c, owner);
      && |t'.rows| == |t.rows| && t'.nextId == t.nextId
      && (forall j :: 0 <= j < |t.rows| && j != i ==> t'.rows[j] == t.rows[j])
      && t'.rows[i] == t.rows[i].(category := c.category, allocation := c.allocation, balance := c.allocation,
                                  rollover := c.rollover, isDeleted := false)
  {
    forall j | 0 <= j < |t.rows| && j != i ensures !HasKey(t.rows[j], c.name, owner) {
      if j < i {
        assert !HasKey(t.rows[i], t.rows[j].name, t.rows[j].userId);
      } else {
        assert !HasKey(t.rows[j], t.rows[i].name, t.rows[i].userId);
      }
    }
    var k := FirstIndex(t.rows, (e: Envelope) => HasKey(e, c.name, owner) && e.isDeleted);
    assert k.Some? && k.value == i;
  }

  /** Seeding keeps the table valid and leaves an active row with the instance's name and owner. */
  lemma SeedInstanceValid(t: Table<Envelope>, c: EnvelopeConfig, owner: Option<UserId>)
    requires EnvelopesValid(t)
    ensures EnvelopesValid(SeedInstance(t, c, owner))
    ensures ActiveWithKey(SeedInstance(t, c, owner).rows, c.name, owner)
    ensures forall name, o :: ActiveWithKey(t.rows, name, o) ==> ActiveWithKey(SeedInstance(t, c, owner).rows, name, o)
  {
    var act := FirstIndex(t.rows, (e: Envelope) => HasKey(e, c.name, owner) && !e.isDeleted);
    if act.None? {
      var del := FirstIndex(t.rows, (e: Envelope) => HasKey(e, c.name, owner) && e.isDeleted);
      if del.Some? {
        SeedReenableValid(t, c, owner, del.value);
      } else {
        SeedAppendValid(t, c, owner);
      }
    }
  }

  /** Re-enabling the soft-deleted row of the key keeps the table valid and every active key. */
  lemma SeedReenableValid(t: Table<Envelope>, c: EnvelopeConfig, owner: Option<UserId>, i: nat)
    requires EnvelopesValid(t) && i < |t.rows| && HasKey(t.rows[i], c.name, owner) && t.rows[i].isDeleted
    ensures var t' := t.(rows := t.rows[i := t.rows[i].(category := c.category, allocation := c.allocation,
                                                      balance := c.allocation, rollover := c.rollover, isDeleted := false)]);
      && EnvelopesValid(t')
      && ActiveWithKey(t'.rows, c.name, owner)
      && forall name, o :: ActiveWithKey(t.rows, name, o) ==> ActiveWithKey(t'.rows, name, o)
  {
    var t' := t.(rows := t.rows[i := t.rows[i].(category := c.category, allocation := c.allocation,
                                              balance := c.allocation, rollover := c.rollover, isDeleted := false)]);
    ReplaceRowKeepsValid(t, i, t'.rows[i]);
    assert HasKey(t'.rows[i], c.name, owner) && !t'.rows[i].isDeleted;
    forall name, o | ActiveWithKey(t.rows, name, o) ensures ActiveWithKey(t'.rows, name, o) {
      var j :| 0 <= j < |t.rows| && HasKey(t.rows[j], name, o) && !t.rows[j].isDeleted;
      assert t'.rows[j] == t.rows[j];
    }
  }

  /** Appending a row for a key no row has keeps the table valid and every active key. */
  lemma SeedAppendValid(t: Table<Envelope>, c: EnvelopeConfig, owner: Option<UserId>)
    requires EnvelopesValid(t)
    requires forall j :: 0 <= j < |t.rows| ==> !HasKey(t.rows[j], c.name, owner)
    ensures var t' := Table(t.rows + [Envelope(t.nextId, c.name, c.category, c.allocation, c.allocation, owner.Some?, owner, c.rollover, false)],
                            t.nextId + 1);
      && EnvelopesValid(t')
      && ActiveWithKey(t'.rows, c.name, owner)
      && forall name, o :: ActiveWithKey(t.rows, name, o) ==> ActiveWithKey(t'.rows, name, o)
  {
    var t' := Table(t.rows + [Envelope(t.nextId, c.name, c.category, c.allocation, c.allocation, owner.Some?, owner, c.rollover, false)],
                    t.nextId + 1);
    var n := |t.rows|;
    AppendRowKeepsValid(t, t'.rows[n]);
    assert HasKey(t'.rows[n], c.name, owner) && !t'.rows[n].isDeleted;
    forall name, o | ActiveWithKey(t.rows, name, o) ensures ActiveWithKey(t'.rows, name, o) {
      var j :| 0 <= j < |t.rows| && HasKey(t.rows[j], name, o) && !t.rows[j].isDeleted;
      assert t'.rows[j] == t.rows[j];
    }
  }

  lemma {:induction false} SeedOwnersValid(t: Table<Envelope>, c: EnvelopeConfig, owners: seq<Option<UserId>>)
    requires EnvelopesValid(t)
    ensures EnvelopesValid(SeedOwners(t, c, owners))
    ensures forall o :: o in owners ==> ActiveWithKey(SeedOwners(t, c, owners).rows, c.name, o)
    ensures forall name, o :: ActiveWithKey(t.rows, name, o) ==> ActiveWithKey(SeedOwners(t, c, owners).rows, name, o)
  {
    if owners != [] {
      var init := owners[..|owners| - 1];
      SeedOwnersValid(t, c, init);
      SeedInstanceValid(SeedOwners(t, c, init), c, owners[|owners| - 1]);
      assert owners == init + [owners[|owners| - 1]];
    }
  }

  /**
   * After seeding, every configuration entry has an active row for each of its
   * owners, rows that were active stay active, and the table stays valid.
   */
  lemma {:induction false} SeedEstablishesConfig(t: Table<Envelope>, configs: seq<EnvelopeConfig>, user1: UserId, user2: UserId)
    requires EnvelopesValid(t)
    ensures EnvelopesValid(Seed(t, configs, user1, user2))
    ensures forall c, o :: c in configs && o in Owners(c, user1, user2) ==> ActiveWithKey(Seed(t, configs, user1, user2).rows, c.name, o)
    ensures forall name, o :: ActiveWithKey(t.rows, name, o) ==> ActiveWithKey(Seed(t, configs, user1, user2).rows, name, o)
  {
    if configs != [] {
      var init, c := configs[..|configs| - 1], configs[|configs| - 1];
      SeedEstablishesConfig(t, init, user1, user2);
      SeedOwnersValid(Seed(t, init, user1, user2), c, Owners(c, user1, user2));
      assert configs == init + [c];
    }
  }

  /** The configuration of the seeding test: one shared and one individual entry. */
  const GroceriesConfig := EnvelopeConfig("Groceries", "necessary", 500.0, false, false)
  const HobbyConfig := EnvelopeConfig("Hobby", "qol", 75.0, true, true)

  /** Seeding the test configuration into an empty table yields the shared row, then the two users' rows. */
  lemma SeedTwoConfigsGivesThreeRows(user1: UserId, user2: UserId)
    requires user1 != user2
    ensures var t := Seed(Table([], 1), [GroceriesConfig, HobbyConfig], user1, user2);
      && t.rows == [Envelope(1, "Groceries", "necessary", 500.0, 500.0, false, None, false, false),
                    Envelope(2, "Hobby", "qol", 75.0, 75.0, true, Some(user1), true, false),
                    Envelope(3, "Hobby", "qol", 75.0, 75.0, true, Some(user2), true, false)]
      && |AllActive(t.rows)| == 3
  {
    var g := Envelope(1, "Groceries", "necessary", 500.0, 500.0, false, None, false, false);
    var h1 := Envelope(2, "Hobby", "qol", 75.0, 75.0, true, Some(user1), true, false);
    var h2 := Envelope(3, "Hobby", "qol", 75.0, 75.0, true, Some(user2), true, false);
    SeedFirstConfig(user1, user2);
    SeedSecondConfig(user1, user2);
    var cs := [GroceriesConfig, HobbyConfig];
    assert cs[..1] == [GroceriesConfig];
    var t := Seed(Table([], 1), cs, user1, user2);
    assert t == Table([g, h1, h2], 4);
    AllActiveOfActive(t.rows);
  }

  lemma SeedFirstConfig(user1: UserId, user2: UserId)
    ensures Seed(Table([], 1), [GroceriesConfig], user1, user2)
      == Table([Envelope(1, "Groceries", "necessary", 500.0, 500.0, false, None, false, false)], 2)
  {
    var cs := [GroceriesConfig];
    assert cs[..0] == [];
    var os := Owners(GroceriesConfig, user1, user2);
    var t0: Table<Envelope> := Table([], 1);
    assert os == [None] && os[..0] == [];
    assert Seed(t0, cs, user1, user2) == SeedOwners(t0, GroceriesConfig, os);
    assert SeedOwners(t0, GroceriesConfig, os) == SeedInstance(t0, GroceriesConfig, None);
    assert FirstIndex(t0.rows, (e: Envelope) => HasKey(e, "Groceries", None) && !e.isDeleted) == None;
    assert FirstIndex(t0.rows, (e: Envelope) => HasKey(e, "Groceries", None) && e.isDeleted) == None;
  }

  lemma SeedSecondConfig(user1: UserId, user2: UserId)
    requires user1 != user2
    ensures var g := Envelope(1, "Groceries", "necessary", 500.0, 500.0, false, None, false, false);
      SeedOwners(Table([g], 2), HobbyConfig, Owners(HobbyConfig, user1, user2))
      == Table([g, Envelope(2, "Hobby", "qol", 75.0, 75.0, true, Some(user1), true, false),
                   Envelope(3, "Hobby", "qol", 75.0, 75.0, true, Some(user2), true, false)], 4)
  {
    var g := Envelope(1, "Groceries", "necessary", 500.0, 500.0, false, None, false, false);
    var h1 := Envelope(2, "Hobby", "qol", 75.0, 75.0, true, Some(user1), true, false);
    var os := Owners(HobbyConfig, user1, user2);
    assert os == [Some(user1), Some(user2)];
    assert os[..1] == [Some(user1)] && os[..1][..0] == [];
    var h2 := Envelope(3, "Hobby", "qol", 75.0, 75.0, true, Some(user2), true, false);
    var t1 := Table([g], 2);
    assert FirstIndex(t1.rows, (e: Envelope) => HasKey(e, "Hobby", Some(user1)) && !e.isDeleted) == None;
    assert FirstIndex(t1.rows, (e: Envelope) => HasKey(e, "Hobby", Some(user1)) && e.isDeleted) == None;
    var t2 := SeedInstance(t1, HobbyConfig, Some(user1));
    assert t2 == Table([g, h1], 3);
    assert SeedOwners(t1, HobbyConfig, os[..1]) == t2;
    assert FirstIndex(t2.rows, (e: Envelope) => HasKey(e, "Hobby", Some(user2)) && !e.isDeleted) == None;
    assert FirstIndex(t2.rows, (e: Envelope) => HasKey(e, "Hobby", Some(user2)) && e.isDeleted) == None;
    assert SeedInstance(t2, HobbyConfig, Some(user2)) == Table([g, h1, h2], 4);
  }

  /** When every row is active, the active listing has all of them. */
  lemma AllActiveOfActive(rows: seq<Envelope>)
    requires forall j :: 0 <= j < |rows| ==> !rows[j].isDeleted
    ensures |AllActive(rows)| == |rows|
  {
    FilterAll(rows, (e: Envelope) => !e.isDeleted);
    assert |multiset(AllActive(rows))| == |multiset(Filter(rows, (e: Envelope) => !e.isDeleted))|;
  }

  // ----- soft delete -----

  /**
   * soft_delete_envelope's decision: the row to mark deleted, or `None` when
   * no active own or shared row exists, or when the row found is individual
   * and belongs to someone else.
   */
  function SoftDeleteTarget(rows: seq<Envelope>, name: string, user: UserId): (r: Option<nat>)
    ensures r.Some? ==> r.value < |rows| && rows[r.value].name == name && !rows[r.value].isDeleted
    ensures r.Some? ==> rows[r.value].userId == Some(user) || (rows[r.value].userId == None && !rows[r.value].isIndividual)
    ensures r.None? && ActiveWithKey(rows, name, Some(user)) ==> false
  {
    match FirstIndex(rows, (e: Envelope) => HasKey(e, name, Some(user)) && !e.isDeleted)
    case Some(i) => Some(i)
    case None =>
      match FirstIndex(rows, (e: Envelope) => HasKey(e, name, None) && !e.isDeleted)
      case Some(i) => if rows[i].isIndividual then None else Some(i)
      case None => None
  }

  /** On a valid table, soft delete refuses only when there is nothing of that name to delete. */
  lemma SoftDeleteFindsUserOrShared(t: Table<Envelope>, name: string, user: UserId)
    requires EnvelopesValid(t)
    ensures SoftDeleteTarget(t.rows, name, user).Some? <==> UserOrShared(t.rows, name, user).Some?
  {
    var s := FirstIndex(t.rows, (e: Envelope) => HasKey(e, name, None) && !e.isDeleted);
    if s.Some? {
      assert t.rows[s.value].userId.None?;
    }
  }

  /** Soft-deleting row `i`: only its `is_deleted` flag changes. */
  function MarkDeleted(rows: seq<Envelope>, i: nat): seq<Envelope>
    requires i < |rows|
  {
    rows[i := rows[i].(isDeleted := true)]
  }

  /**
   * After a successful soft delete the row of that name and owner is no
   * longer active, and a second delete by its owner refuses, unless a
   * same-named shared row is still there to fall back on.
   */
  lemma SoftDeleteTwice(t: Table<Envelope>, name: string, user: UserId)
    requires EnvelopesValid(t) && SoftDeleteTarget(t.rows, name, user).Some?
    ensures var i := SoftDeleteTarget(t.rows, name, user).value;
      var rows' := MarkDeleted(t.rows, i);
      && !ActiveWithKey(rows', name, t.rows[i].userId)
      && (SoftDeleteTarget(rows', name, user).Some? <==> t.rows[i].userId.Some? && ActiveWithKey(t.rows, name, None))
  {
    var i := SoftDeleteTarget(t.rows, name, user).value;
    var rows' := MarkDeleted(t.rows, i);
    MarkDeletedEffect(t, i);
    SoftDeleteFindsUserOrShared(t.(rows := rows'), name, user);
    if t.rows[i].userId.None? {
      assert !ActiveWithKey(t.rows, name, Some(user));
      assert !ActiveWithKey(rows', name, Some(user));
    } else {
      assert ActiveWithKey(rows', name, None) <==> ActiveWithKey(t.rows, name, None);
    }
  }

  /** Marking one row deleted keeps the table valid and deactivates exactly that row's key. */
  lemma MarkDeletedEffect(t: Table<Envelope>, i: nat)
    requires EnvelopesValid(t) && i < |t.rows|
    ensures EnvelopesValid(t.(rows := MarkDeleted(t.rows, i)))
    ensures !ActiveWithKey(MarkDeleted(t.rows, i), t.rows[i].name, t.rows[i].userId)
    ensures forall name, o :: !HasKey(t.rows[i], name, o) ==>
      (ActiveWithKey(MarkDeleted(t.rows, i), name, o) <==> ActiveWithKey(t.rows, name, o))
  {
    var rows' := MarkDeleted(t.rows, i);
    forall j | 0 <= j < |rows'| && HasKey(rows'[j], t.rows[i].name, t.rows[i].userId) ensures rows'[j].isDeleted {
      assert HasKey(t.rows[j], t.rows[i].name, t.rows[i].userId);
      KeyUnique(t, i, j);
    }
    forall p, q | 0 <= p < q < |rows'| ensures !HasKey(rows'[q], rows'[p].name, rows'[p].userId) {
      assert !HasKey(t.rows[q], t.rows[p].name, t.rows[p].userId);
    }
    forall name, o | !HasKey(t.rows[i], name, o)
      ensures ActiveWithKey(rows', name, o) <==> ActiveWithKey(t.rows, name, o)
    {
      if ActiveWithKey(t.rows, name, o) {
        var j :| 0 <= j < |t.rows| && HasKey(t.rows[j], name, o) && !t.rows[j].isDeleted;
        assert rows'[j] == t.rows[j];
      }
      if ActiveWithKey(rows', name, o) {
        var j :| 0 <= j < |rows'| && HasKey(rows'[j], name, o) && !rows'[j].isDeleted;
        assert rows'[j] == t.rows[j];
      }
    }
  }

  // ----- the store operations -----

  /** manage_envelope_instance_in_transaction, run against the store inside a transaction. */
  method ManageInstance(db: Store, a: InstanceArgs) returns (r: Result<InstanceOutcome, Error>)
    modifies db
    ensures Manage(old(db.envelopes), a).Ok? ==> r == Ok(Manage(old(db.envelopes), a).value.1) && db.envelopes == Manage(old(db.envelopes), a).value.0
    ensures Manage(old(db.envelopes), a).Err? ==> r == Err(Manage(old(db.envelopes), a).error) && db.envelopes == old(db.envelopes)
    ensures db.transactions == old(db.transactions) && db.products == old(db.products) && db.systemState == old(db.systemState)
  {
    var target := a.userId.Some?;
    var active := FirstIndex(db.envelopes.rows, (e: Envelope) => InstanceMatch(e, a.name, a.userId, target, false));
    if active.Some? {
      return Ok(Skipped(db.envelopes.rows[active.value].id));
    }
    var deleted := FirstIndex(db.envelopes.rows, (e: Envelope) => InstanceMatch(e, a.name, a.userId, target, true));
    if deleted.Some? {
      var i := deleted.value;
      var old_ := db.envelopes.rows[i];
      if a.isIndividual.Some? && a.isIndividual.value != old_.isIndividual {
        return Err(IndividualFlagMismatch);
      }
      var allocation := a.allocation.UnwrapOr(old_.allocation);
      var e := old_.(category := a.category.UnwrapOr(old_.category), allocation := allocation,
                     balance := allocation, rollover := a.rollover.UnwrapOr(old_.rollover), isDeleted := false);
      db.envelopes := db.envelopes.(rows := db.envelopes.rows[i := e]);
      return Ok(Reenabled(old_.id));
    }
    var individual := a.isIndividual.UnwrapOr(target);
    if individual != target {
      return Err(IndividualFlagMismatch);
    }
    var allocation := a.allocation.UnwrapOr(0.0);
    var e := Envelope(db.envelopes.nextId, a.name, a.category.UnwrapOr("uncategorized"), allocation, allocation,
                      individual, a.userId, a.rollover.UnwrapOr(false), false);
    var inserted := InsertEnvelope(db.envelopes, e);
    if inserted.Err? {
      return Err(inserted.error);
    }
    var id := db.envelopes.nextId;
    db.envelopes := inserted.value;
    return Ok(Created(id));
  }

  /**
   * create_or_reenable_envelope_flexible: the instance steps run in one store
   * transaction; an error rolls every earlier step back.
   */
  method CreateOrReenableEnvelope(db: Store, c: CreateArgs, user1: UserId, user2: UserId) returns (r: Result<seq<InstanceOutcome>, Error>)
    modifies db
    ensures CreateOrReenable(old(db.envelopes), c, user1, user2).Ok? ==>
      r == Ok(CreateOrReenable(old(db.envelopes), c, user1, user2).value.1) && db.envelopes == CreateOrReenable(old(db.envelopes), c, user1, user2).value.0
    ensures CreateOrReenable(old(db.envelopes), c, user1, user2).Err? ==>
      r == Err(CreateOrReenable(old(db.envelopes), c, user1, user2).error) && db.envelopes == old(db.envelopes)
    ensures db.transactions == old(db.transactions) && db.products == old(db.products) && db.systemState == old(db.systemState)
  {
    var snapshot := db.envelopes;
    var results: seq<InstanceOutcome>;
    if c.isIndividual.UnwrapOr(false) {
      var r1 := ManageInstance(db, UserInstance(c, user1));
      if r1.Err? {
        db.envelopes := snapshot;
        return Err(r1.error);
      }
      var r2 := ManageInstance(db, UserInstance(c, user2));
      if r2.Err? {
        db.envelopes := snapshot;
        return Err(r2.error);
      }
      results := [r1.value, r2.value];
    } else {
      var r1 := ManageInstance(db, SharedInstance(c));
      if r1.Err? {
        db.envelopes := snapshot;
        return Err(r1.error);
      }
      results := [r1.value];
    }
    return Ok(results);
  }

  /** One instance of seed_initial_envelopes against the store. */
  method SeedOne(db: Store, c: EnvelopeConfig, owner: Option<UserId>)
    modifies db
    ensures db.envelopes == SeedInstance(old(db.envelopes), c, owner)
    ensures db.transactions == old(db.transactions) && db.products == old(db.products) && db.systemState == old(db.systemState)
  {
    var active := FirstIndex(db.envelopes.rows, (e: Envelope) => HasKey(e, c.name, owner) && !e.isDeleted);
    if active.Some? {
      return;
    }
    var deleted := FirstIndex(db.envelopes.rows, (e: Envelope) => HasKey(e, c.name, owner) && e.isDeleted);
    if deleted.Some? {
      var i := deleted.value;
      var e := db.envelopes.rows[i].(category := c.category, allocation := c.allocation,
                                     balance := c.allocation, rollover := c.rollover, isDeleted := false);
      db.envelopes := db.envelopes.(rows := db.envelopes.rows[i := e]);
    } else {
      var e := Envelope(db.envelopes.nextId, c.name, c.category, c.allocation, c.allocation, owner.Some?, owner, c.rollover, false);
      db.envelopes := Table(db.envelopes.rows + [e], db.envelopes.nextId + 1);
    }
  }

  /** seed_initial_envelopes: every configuration entry in order; an individual entry for user 1, then user 2. */
  method SeedInitialEnvelopes(db: Store, configs: seq<EnvelopeConfig>, user1: UserId, user2: UserId)
    modifies db
    ensures db.envelopes == Seed(old(db.envelopes), configs, user1, user2)
    ensures db.transactions == old(db.transactions) && db.products == old(db.products) && db.systemState == old(db.systemState)
  {
    var k := 0;
    while k < |configs|
      invariant 0 <= k <= |configs|
      invariant db.envelopes == Seed(old(db.envelopes), configs[..k], user1, user2)
      invariant db.transactions == old(db.transactions) && db.products == old(db.products) && db.systemState == old(db.systemState)
    {
      var c := configs[k];
      ghost var before := db.envelopes;
      assert Owners(c, user1, user2)[..0] == [];
      if c.isIndividual {
        var users := [user1, user2];
        var u := 0;
        while u < |users|
          invariant 0 <= u <= |users|
          invariant db.envelopes == SeedOwners(before, c, Owners(c, user1, user2)[..u])
          invariant db.transactions == old(db.transactions) && db.products == old(db.products) && db.systemState == old(db.systemState)
        {
          assert Owners(c, user1, user2)[u] == Some(users[u]);
          SeedOne(db, c, Some(users[u]));
          assert Owners(c, user1, user2)[..u + 1][..u] == Owners(c, user1, user2)[..u];
          u := u + 1;
        }
        assert Owners(c, user1, user2)[..2] == Owners(c, user1, user2);
      } else {
        SeedOne(db, c, None);
        assert Owners(c, user1, user2) == [None];
      }
      assert db.envelopes == SeedOwners(before, c, Owners(c, user1, user2));
      assert configs[..k + 1][..k] == configs[..k] && configs[..k + 1][k] == c;
      k := k + 1;
    }
    assert configs[..|configs|] == configs;
  }

  /** soft_delete_envelope: marks the row deleted and answers whether anything was deleted. */
  method SoftDeleteEnvelope(db: Store, name: string, user: UserId) returns (deleted: bool)
    modifies db
    ensures deleted <==> SoftDeleteTarget(old(db.envelopes.rows), name, user).Some?
    ensures deleted ==> db.envelopes == old(db.envelopes).(rows := MarkDeleted(old(db.envelopes.rows), SoftDeleteTarget(old(db.envelopes.rows), name, user).value))
    ensures !deleted ==> db.envelopes == old(db.envelopes)
    ensures db.transactions == old(db.transactions) && db.products == old(db.products) && db.systemState == old(db.systemState)
  {
    var own := FirstIndex(db.envelopes.rows, (e: Envelope) => HasKey(e, name, Some(user)) && !e.isDeleted);
    var found: Option<nat>;
    if own.Some? {
      found := own;
    } else {
      found := FirstIndex(db.envelopes.rows, (e: Envelope) => HasKey(e, name, None) && !e.isDeleted);
    }
    if found.None? {
      return false;
    }
    var i := found.value;
    if db.envelopes.rows[i].isIndividual && db.envelopes.rows[i].userId != Some(user) {
      return false;
    }
    db.envelopes := db.envelopes.(rows := MarkDeleted(db.envelopes.rows, i));
    return true;
  }

  /** update_envelope_balance */
  method UpdateEnvelopeBalance(db: Store, id: nat, balance: real)
    modifies db
    ensures db.envelopes == old(db.envelopes).(rows := WithBalance(old(db.envelopes.rows), id, balance))
    ensures db.transactions == old(db.transactions) && db.products == old(db.products) && db.systemState == old(db.systemState)
    ensures old(db.Valid()) ==> db.Valid()
  {
    ghost var before := db.envelopes;
    db.envelopes := db.envelopes.(rows := WithBalance(db.envelopes.rows, id, balance));
    if old(db.Valid()) {
      WithBalanceValid(before, id, balance);
      SameIdsKeepReferences(before.rows, db.envelopes.rows);
    }
  }
}
