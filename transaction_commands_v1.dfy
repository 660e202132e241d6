/**
 * `/spend` and `/addfunds` of the rusqlite generation
 * (src/commands/transaction.rs, and their older copy in src/commands.rs):
 * find the envelope, write the new absolute balance, then log the movement.
 * Both store calls end in `?`, but neither can fail here: the balance write
 * matches by id and the log row names an envelope that exists.
 */
module TransactionCommandsV1 {
  import opened Wrappers
  import opened Calendar
  import opened StoreV1
  import opened EnvelopesV1
  import opened TransactionsV1

  /** Why a ledger command stops before writing. */
  datatype LedgerRefusal = NonPositiveAmount | NoSuchEnvelope | NotOwner

  /** A recorded movement: the envelope, its new balance and the logged row's id. */
  datatype LedgerReply = Refused(reason: LedgerRefusal) | Recorded(envelopeId: nat, newBalance: real, transactionId: nat)

  /**
   * The shared checks of both handlers, in order: a positive amount, an
   * active envelope of that name the author can use (own first, then
   * shared), and an individual envelope must be the author's.
   */
  function LedgerTarget(rows: seq<Envelope>, name: string, author: UserId, amount: real): (r: Result<Envelope, LedgerRefusal>)
    ensures r == Err(NonPositiveAmount) <==> amount <= 0.0
    ensures r == Err(NoSuchEnvelope) <==> amount > 0.0 && UserOrShared(rows, name, author).None?
    ensures r.Ok? ==> amount > 0.0 && r.value in rows && r.value.name == name && !r.value.isDeleted
    ensures r.Ok? ==> r.value.userId == Some(author) || (r.value.userId.None? && !r.value.isIndividual)
    ensures ActiveWithKey(rows, name, Some(author)) && amount > 0.0 ==> r.Ok? && r.value.userId == Some(author)
  {
    if amount <= 0.0 then Err(NonPositiveAmount)
    else
      match UserOrShared(rows, name, author)
      case None => Err(NoSuchEnvelope)
      case Some(e) =>
        if e.isIndividual && e.userId != Some(author) then Err(NotOwner) else Ok(e)
  }

  /**
   * On a valid table the ownership check never fires: the lookup already
   * returns only the author's own row or a shared one.
   */
  lemma OwnerCheckIsDefensive(t: Table<Envelope>, name: string, author: UserId, amount: real)
    requires EnvelopesValid(t)
    ensures LedgerTarget(t.rows, name, author, amount) != Err(NotOwner)
  {
    UserOrSharedNeverForeign(t, name, author);
  }

  /**
   * spend: balance := balance - amount with no overdraft check, then a
   * `spend` row holding the positive amount ("No description" by default).
   */
  method Spend(db: Store, name: string, amount: real, description: Option<string>, author: UserId,
               messageId: string, now: Date)
    returns (r: LedgerReply)
    modifies db
    ensures LedgerTarget(old(db.envelopes.rows), name, author, amount).Err? ==>
      && r == Refused(LedgerTarget(old(db.envelopes.rows), name, author, amount).error)
      && db.envelopes == old(db.envelopes) && db.transactions == old(db.transactions)
    ensures LedgerTarget(old(db.envelopes.rows), name, author, amount).Ok? ==>
      var e := LedgerTarget(old(db.envelopes.rows), name, author, amount).value;
      && r == Recorded(e.id, e.balance - amount, old(db.transactions.nextId))
      && db.envelopes == old(db.envelopes).(rows := WithBalance(old(db.envelopes.rows), e.id, e.balance - amount))
      && db.transactions == Table(old(db.transactions.rows) + [Transaction(old(db.transactions.nextId), e.id, amount,
                                  description.UnwrapOr("No description"), now, author, Some(messageId), "spend")],
                                  old(db.transactions.nextId) + 1)
    ensures db.products == old(db.products) && db.systemState == old(db.systemState)
    ensures old(db.Valid()) ==> db.Valid()
  {
    var target := LedgerTarget(db.envelopes.rows, name, author, amount);
    if target.Err? {
      return Refused(target.error);
    }
    var e := target.value;
    var id := WriteAndLog(db, e, e.balance - amount, amount, description.UnwrapOr("No description"), author, messageId, "spend", now);
    return Recorded(e.id, e.balance - amount, id);
  }

  /**
   * addfunds: balance := balance + amount, then a `deposit` row holding the
   * positive amount ("Manual funds addition by <name>" by default).
   */
  method AddFunds(db: Store, name: string, amount: real, description: Option<string>, author: UserId,
                  authorName: string, messageId: string, now: Date)
    returns (r: LedgerReply)
    modifies db
    ensures LedgerTarget(old(db.envelopes.rows), name, author, amount).Err? ==>
      && r == Refused(LedgerTarget(old(db.envelopes.rows), name, author, amount).error)
      && db.envelopes == old(db.envelopes) && db.transactions == old(db.transactions)
    ensures LedgerTarget(old(db.envelopes.rows), name, author, amount).Ok? ==>
      var e := LedgerTarget(old(db.envelopes.rows), name, author, amount).value;
      && r == Recorded(e.id, e.balance + amount, old(db.transactions.nextId))
      && db.envelopes == old(db.envelopes).(rows := WithBalance(old(db.envelopes.rows), e.id, e.balance + amount))
      && db.transactions == Table(old(db.transactions.rows) + [Transaction(old(db.transactions.nextId), e.id, amount,
                                  description.UnwrapOr("Manual funds addition by " + authorName), now, author, Some(messageId), "deposit")],
                                  old(db.transactions.nextId) + 1)
    ensures db.products == old(db.products) && db.systemState == old(db.systemState)
    ensures old(db.Valid()) ==> db.Valid()
  {
    var target := LedgerTarget(db.envelopes.rows, name, author, amount);
    if target.Err? {
      return Refused(target.error);
    }
    var e := target.value;
    var id := WriteAndLog(db, e, e.balance + amount, amount, description.UnwrapOr("Manual funds addition by " + authorName), author, messageId, "deposit", now);
    return Recorded(e.id, e.balance + amount, id);
  }

  /**
   * The two writes both handlers end with: the envelope's new absolute
   * balance, then one log row with the positive amount and the direction in
   * its type.
   */
  method WriteAndLog(db: Store, e: Envelope, newBalance: real, amount: real, description: string, author: UserId,
                     messageId: string, kind: string, now: Date)
    returns (id: nat)
    requires e in db.envelopes.rows
    modifies db
    ensures id == old(db.transactions.nextId)
    ensures db.envelopes == old(db.envelopes).(rows := WithBalance(old(db.envelopes.rows), e.id, newBalance))
    ensures db.transactions == Table(old(db.transactions.rows) + [Transaction(id, e.id, amount, description, now, author, Some(messageId), kind)], id + 1)
    ensures db.products == old(db.products) && db.systemState == old(db.systemState)
    ensures old(db.Valid()) ==> db.Valid()
  {
    UpdateEnvelopeBalance(db, e.id, newBalance);
    KeepsEnvelopeId(old(db.envelopes.rows), e, newBalance);
    var logged := CreateTransaction(db, e.id, amount, description, author, Some(messageId), kind, now);
    assert logged.Ok?;
    return logged.value;
  }

  /** The balance write keeps the envelope's id, so the log's foreign key holds and the insert cannot fail. */
  lemma KeepsEnvelopeId(rows: seq<Envelope>, e: Envelope, balance: real)
    requires e in rows
    ensures HasEnvelopeId(WithBalance(rows, e.id, balance), e.id)
  {
    var i :| 0 <= i < |rows| && rows[i] == e;
    assert WithBalance(rows, e.id, balance)[i].id == e.id;
  }

  /**
   * The movement a command logs is what changes the month's figures: a
   * spend dated in the reported month of that envelope adds its amount to
   * the month's spending, and a deposit never does.
   */
  lemma LoggedSpendCountsInMonth(rows: seq<Transaction>, t: Transaction)
    requires IsValid(t.stamped) && InSqlRange(t.stamped)
    ensures t.kind == "spend" ==>
      MonthSpending(rows + [t], t.envelopeId, t.stamped.year, t.stamped.month)
        == MonthSpending(rows, t.envelopeId, t.stamped.year, t.stamped.month) + t.amount
    ensures t.kind == "deposit" ==>
      forall id, year, month :: MonthSpending(rows + [t], id, year, month) == MonthSpending(rows, id, year, month)
  {
    MonthKeysAgree(t.stamped);
    MonthSpendingAfterAppend(rows, t, t.envelopeId, t.stamped.year, t.stamped.month);
    if t.kind == "deposit" {
      forall id, year, month ensures MonthSpending(rows + [t], id, year, month) == MonthSpending(rows, id, year, month) {
        MonthSpendingAfterAppend(rows, t, id, year, month);
      }
    }
  }
}
