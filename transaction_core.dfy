/**
 * Transaction operations of the sea-orm generation (src/core/transaction.rs):
 * recording a signed amount together with its balance change, listing an
 * envelope's log, and deleting a row so that its effect is reversed.
 */
module TransactionCore {
  import opened Wrappers
  import opened Text
  import opened Sorting
  import opened Floats
  import opened StoreV2
  import opened EnvelopeCore

  /** The amount check of create_transaction: zero is refused first, then NaN and the infinities. */
  function CheckAmount(amount: F64): (r: Result<real, Error>)
    ensures r.Ok? <==> amount.Num? && amount.r != 0.0
    ensures r.Ok? ==> r.value == amount.r
    ensures r.Err? ==> r.error == InvalidAmount(amount)
  {
    if EqualTo(amount, 0.0) then Err(InvalidAmount(amount))
    else if !IsFinite(amount) then Err(InvalidAmount(amount))
    else Ok(amount.r)
  }

  /** `find_by_id` followed by the `is_deleted` check: the envelope a transaction may be recorded against. */
  function LiveById(rows: seq<Envelope>, id: nat): (r: Option<Envelope>)
    ensures r.Some? ==> r.value in rows && r.value.id == id && !r.value.isDeleted
    ensures r.None? <==> ById(rows, id).None? || ById(rows, id).value.isDeleted
  {
    match ById(rows, id)
    case Some(e) => if e.isDeleted then None else Some(e)
    case None => None
  }

  /**
   * The refusals of create_transaction, in order: the amount check, then a
   * missing or soft-deleted envelope (`EnvelopeNotFound`), then a balance
   * that would drop below zero (`InsufficientFunds`, with the current
   * balance and the negated amount).
   */
  function CreateRefusal(rows: seq<Envelope>, envelopeId: nat, amount: F64): (r: Option<Error>)
    ensures CheckAmount(amount).Err? ==> r == Some(InvalidAmount(amount))
    ensures CheckAmount(amount).Ok? && LiveById(rows, envelopeId).None? ==> r == Some(EnvelopeNotFound(IdText(envelopeId)))
    ensures CheckAmount(amount).Ok? && LiveById(rows, envelopeId).Some? ==>
      var e := LiveById(rows, envelopeId).value;
      r == if e.balance + amount.r < 0.0 then Some(InsufficientFunds(e.balance, -amount.r)) else None
    ensures r.None? <==> amount.Num? && amount.r != 0.0 && LiveById(rows, envelopeId).Some?
                         && LiveById(rows, envelopeId).value.balance + amount.r >= 0.0
  {
    match CheckAmount(amount)
    case Err(err) => Some(err)
    case Ok(a) =>
      match LiveById(rows, envelopeId)
      case None => Some(EnvelopeNotFound(IdText(envelopeId)))
      case Some(e) => if e.balance + a < 0.0 then Some(InsufficientFunds(e.balance, -a)) else None
  }

  /**
   * create_transaction: unless refused, one row with the signed amount is
   * inserted and the envelope's balance moves by the amount, inside one
   * database transaction. Every refusal comes before any write.
   */
  method CreateTransaction(db: Store, envelopeId: nat, amount: F64, description: string,
                           userId: UserId, messageId: Option<string>, kind: string, now: int)
    returns (r: Result<Transaction, Error>)
    modifies db
    ensures r.Err? <==> CreateRefusal(old(db.envelopes.rows), envelopeId, amount).Some?
    ensures r.Err? ==>
      && r.error == CreateRefusal(old(db.envelopes.rows), envelopeId, amount).value
      && db.envelopes == old(db.envelopes) && db.transactions == old(db.transactions)
    ensures r.Ok? ==>
      && r.value == Transaction(old(db.transactions.nextId), envelopeId, amount.r, description, now, userId, messageId, kind)
      && db.transactions == Table(old(db.transactions.rows) + [r.value], old(db.transactions.nextId) + 1)
      && db.envelopes == old(db.envelopes).(rows := AddToBalance(old(db.envelopes.rows), envelopeId, amount.r))
    ensures db.products == old(db.products) && db.systemState == old(db.systemState)
    ensures old(db.Valid()) ==> db.Valid()
  {
    var refusal := CreateRefusal(db.envelopes.rows, envelopeId, amount);
    if refusal.Some? {
      return Err(refusal.value);
    }
    var row := Transaction(db.transactions.nextId, envelopeId, amount.r, description, now, userId, messageId, kind);
    if db.Valid() {
      AppendKeepsTransactionsValid(db.transactions, db.envelopes.rows, row);
    }
    db.transactions := Table(db.transactions.rows + [row], db.transactions.nextId + 1);
    var updated := UpdateEnvelopeBalanceAtomic(db, envelopeId, amount.r);
    return Ok(row);
  }

  lemma AppendKeepsTransactionsValid(t: Table<Transaction>, envelopes: seq<Envelope>, row: Transaction)
    requires TransactionsValid(t, envelopes) && row.id == t.nextId
    requires exists e :: e in envelopes && e.id == row.envelopeId
    ensures TransactionsValid(Table(t.rows + [row], t.nextId + 1), envelopes)
  {
    var e :| e in envelopes && e.id == row.envelopeId;
    var k :| 0 <= k < |envelopes| && envelopes[k] == e;
    var rows' := t.rows + [row];
    forall i | 0 <= i < |rows'| ensures HasEnvelopeId(envelopes, rows'[i].envelopeId) {
      if i < |t.rows| {
        assert rows'[i] == t.rows[i];
      } else {
        assert envelopes[k].id == rows'[i].envelopeId;
      }
    }
  }

  /**
   * The funds guard tests `balance + amount < 0` whatever the amount's
   * sign, so a deposit too small to bring an overdrawn envelope back to
   * zero is refused as well.
   */
  lemma DepositIntoOverdrawnRefused()
    ensures var e := Envelope(1, "Food", "food", 100.0, -40.0, false, None, false, false);
      && LiveById([e], 1) == Some(e)
      && CheckAmount(Num(20.0)) == Ok(20.0)
      && e.balance + 20.0 < 0.0
      && CreateRefusal([e], 1, Num(20.0)) == Some(InsufficientFunds(-40.0, -20.0))
  {
    var e := Envelope(1, "Food", "food", 100.0, -40.0, false, None, false, false);
    assert ById([e], 1) == Some(e);
  }

  // ----- listing -----

  /** `ORDER BY timestamp DESC` */
  predicate NewerFirst(a: Transaction, b: Transaction)
  {
    a.timestamp >= b.timestamp
  }

  function ForEnvelope(envelopeId: nat): Transaction -> bool
  {
    (t: Transaction) => t.envelopeId == envelopeId
  }

  /** get_transactions_for_envelope: that envelope's rows, newest first. */
  function TransactionsFor(rows: seq<Transaction>, envelopeId: nat): (r: seq<Transaction>)
    ensures multiset(r) == multiset(Filter(rows, ForEnvelope(envelopeId)))
    ensures forall t :: t in r <==> t in rows && t.envelopeId == envelopeId
    ensures SortedBy(r, NewerFirst)
  {
    var r := SortBy(Filter(rows, ForEnvelope(envelopeId)), NewerFirst);
    assert forall t :: t in r <==> t in Filter(rows, ForEnvelope(envelopeId)) by {
      forall t ensures t in r <==> t in Filter(rows, ForEnvelope(envelopeId)) {
        assert t in r <==> t in multiset(r);
      }
    }
    r
  }

  // ----- deletion -----

  /** get_transaction_by_id */
  function TransactionById(rows: seq<Transaction>, id: nat): (r: Option<Transaction>)
    ensures r.Some? ==> r.value in rows && r.value.id == id
    ensures r.None? <==> forall t :: t in rows ==> t.id != id
  {
    match FirstIndex(rows, (t: Transaction) => t.id == id)
    case Some(i) => Some(rows[i])
    case None => None
  }

  function HasTransactionId(id: nat): Transaction -> bool
  {
    (t: Transaction) => t.id == id
  }

  const TransactionNotFoundMessage := "Transaction not found"

  /**
   * The refusals of delete_transaction: an unknown id gives a `Config`
   * error, and a transaction whose envelope row is gone gives
   * `EnvelopeNotFound`.
   */
  function DeleteRefusal(log: seq<Transaction>, envelopes: seq<Envelope>, id: nat): (r: Option<Error>)
    ensures TransactionById(log, id).None? ==> r == Some(Config(TransactionNotFoundMessage))
    ensures TransactionById(log, id).Some? ==>
      var t := TransactionById(log, id).value;
      r == if ById(envelopes, t.envelopeId).None? then Some(EnvelopeNotFound(IdText(t.envelopeId))) else None
  {
    match TransactionById(log, id)
    case None => Some(Config(TransactionNotFoundMessage))
    case Some(t) => if ById(envelopes, t.envelopeId).None? then Some(EnvelopeNotFound(IdText(t.envelopeId))) else None
  }

  /**
   * delete_transaction: unless refused, the row is deleted and its amount
   * subtracted from its envelope's balance, in one database transaction.
   */
  method DeleteTransaction(db: Store, id: nat) returns (r: Result<(), Error>)
    modifies db
    ensures r.Err? <==> DeleteRefusal(old(db.transactions.rows), old(db.envelopes.rows), id).Some?
    ensures r.Err? ==>
      && r.error == DeleteRefusal(old(db.transactions.rows), old(db.envelopes.rows), id).value
      && db.envelopes == old(db.envelopes) && db.transactions == old(db.transactions)
    ensures r.Ok? ==>
      && db.transactions == old(db.transactions).(rows := Reject(old(db.transactions.rows), HasTransactionId(id)))
      && var t := TransactionById(old(db.transactions.rows), id).value;
         db.envelopes == old(db.envelopes).(rows := AddToBalance(old(db.envelopes.rows), t.envelopeId, -t.amount))
    ensures db.products == old(db.products) && db.systemState == old(db.systemState)
    ensures old(db.Valid()) ==> db.Valid()
  {
    var refusal := DeleteRefusal(db.transactions.rows, db.envelopes.rows, id);
    if refusal.Some? {
      return Err(refusal.value);
    }
    RemoveTransaction(db, id);
    return Ok(());
  }

  /** The two writes of delete_transaction: the row goes, and its amount comes off its envelope's balance. */
  method RemoveTransaction(db: Store, id: nat)
    requires TransactionById(db.transactions.rows, id).Some?
    modifies db
    ensures db.transactions == old(db.transactions).(rows := Reject(old(db.transactions.rows), HasTransactionId(id)))
    ensures var t := TransactionById(old(db.transactions.rows), id).value;
      db.envelopes == old(db.envelopes).(rows := AddToBalance(old(db.envelopes.rows), t.envelopeId, -t.amount))
    ensures db.products == old(db.products) && db.systemState == old(db.systemState)
    ensures old(db.Valid()) ==> db.Valid()
  {
    var t := TransactionById(db.transactions.rows, id).value;
    DeleteTransactionRow(db, id);
    ReverseBalance(db, t, old(db.envelopes));
  }

  /**
   * The balance write of delete_transaction: `update_envelope_balance_atomic`
   * with the negated amount, on the envelope table `envelopes0` it finds.
   */
  method ReverseBalance(db: Store, t: Transaction, ghost envelopes0: Table<Envelope>)
    requires db.envelopes == envelopes0
    modifies db
    ensures db.envelopes == envelopes0.(rows := AddToBalance(envelopes0.rows, t.envelopeId, -t.amount))
    ensures db.transactions == old(db.transactions) && db.products == old(db.products) && db.systemState == old(db.systemState)
    ensures old(db.Valid()) ==> db.Valid()
  {
    var updated := UpdateEnvelopeBalanceAtomic(db, t.envelopeId, -t.amount);
  }

  /** `DELETE FROM transactions WHERE id = ?` */
  method DeleteTransactionRow(db: Store, id: nat)
    modifies db
    ensures db.transactions == old(db.transactions).(rows := Reject(old(db.transactions.rows), HasTransactionId(id)))
    ensures db.envelopes == old(db.envelopes) && db.products == old(db.products) && db.systemState == old(db.systemState)
    ensures old(db.Valid()) ==> db.Valid()
  {
    if db.Valid() {
      RejectKeepsTransactionsValid(db.transactions, db.envelopes.rows, HasTransactionId(id));
    }
    db.transactions := db.transactions.(rows := Reject(db.transactions.rows, HasTransactionId(id)));
  }

  lemma RejectKeepsTransactionsValid(t: Table<Transaction>, envelopes: seq<Envelope>, p: Transaction -> bool)
    requires TransactionsValid(t, envelopes)
    ensures TransactionsValid(t.(rows := Reject(t.rows, p)), envelopes)
  {
    var r := Reject(t.rows, p);
    forall i | 0 <= i < |r| ensures r[i].id < t.nextId && HasEnvelopeId(envelopes, r[i].envelopeId) {
      assert r[i] in t.rows;
    }
    RejectKeepsPairwise(t.rows, p, (a: Transaction, b: Transaction) => a.id != b.id);
  }

  /** Deleting a row whose id no other row has leaves exactly the other rows. */
  lemma {:induction false} RejectFreshId(rows: seq<Transaction>, t: Transaction)
    requires forall u :: u in rows ==> u.id != t.id
    ensures Reject(rows + [t], HasTransactionId(t.id)) == rows
  {
    if rows != [] {
      var tail := rows[1..];
      assert rows + [t] == [rows[0]] + (tail + [t]);
      RejectFreshId(tail, t);
    }
  }

  /**
   * Deleting a transaction just recorded reverses it exactly: the log and
   * every balance are as they were before the recording.
   */
  lemma DeleteUndoesCreate(log: Table<Transaction>, envelopes: seq<Envelope>, t: Transaction)
    requires forall i :: 0 <= i < |log.rows| ==> log.rows[i].id < log.nextId
    requires t.id == log.nextId
    ensures TransactionById(log.rows + [t], t.id) == Some(t)
    ensures Reject(log.rows + [t], HasTransactionId(t.id)) == log.rows
    ensures AddToBalance(AddToBalance(envelopes, t.envelopeId, t.amount), t.envelopeId, -t.amount) == envelopes
  {
    assert forall u :: u in log.rows ==> u.id != t.id;
    RejectFreshId(log.rows, t);
    AddToBalanceInverse(envelopes, t.envelopeId, t.amount);
    assert (log.rows + [t])[|log.rows|] == t;
  }

  /** 0 + 50 = 50: a first deposit into a new envelope. */
  lemma FirstDepositExample(e: Envelope)
    requires e.balance == 0.0 && !e.isDeleted
    ensures LiveById([e], e.id) == Some(e)
    ensures CheckAmount(Num(50.0)) == Ok(50.0)
    ensures AddToBalance([e], e.id, 50.0)[0].balance == 50.0
  {
    assert ById([e], e.id) == Some(e);
  }
}
