/**
 * The transaction log of the rusqlite generation (src/db/transactions.rs,
 * and its older copy in src/db.rs): recording a row, pruning old rows by
 * their date, and the month's spending of one envelope.
 */
module TransactionsV1 {
  import opened Wrappers
  import opened Text
  import opened Sorting
  import opened Calendar
  import opened StoreV1

  // ----- recording -----

  /**
   * create_transaction: one row, stamped with the current UTC date, appended
   * with the next id. The only thing SQLite refuses is an envelope id that
   * names no envelope row (foreign keys are on); no balance is touched.
   */
  method CreateTransaction(db: Store, envelopeId: nat, amount: real, description: string,
                           userId: UserId, messageId: Option<string>, kind: string, now: Date)
    returns (r: Result<nat, Error>)
    modifies db
    ensures r.Ok? <==> HasEnvelopeId(old(db.envelopes.rows), envelopeId)
    ensures r.Ok? ==>
      && r.value == old(db.transactions.nextId)
      && db.transactions == Table(old(db.transactions.rows) + [Transaction(r.value, envelopeId, amount, description, now, userId, messageId, kind)],
                                  old(db.transactions.nextId) + 1)
    ensures r.Err? ==> r.error == ForeignKeyViolation && db.transactions == old(db.transactions)
    ensures db.envelopes == old(db.envelopes) && db.products == old(db.products) && db.systemState == old(db.systemState)
    ensures old(db.Valid()) ==> db.Valid()
  {
    var found := FirstIndex(db.envelopes.rows, (e: Envelope) => e.id == envelopeId);
    if found.None? {
      return Err(ForeignKeyViolation);
    }
    var id := db.transactions.nextId;
    var row := Transaction(id, envelopeId, amount, description, now, userId, messageId, kind);
    ghost var before := db.transactions;
    db.transactions := Table(db.transactions.rows + [row], id + 1);
    if old(db.Valid()) {
      AppendKeepsTransactionsValid(before, db.envelopes.rows, row);
    }
    return Ok(id);
  }

  /** Appending a row with a fresh id and an existing envelope keeps the log valid. */
  lemma AppendKeepsTransactionsValid(t: Table<Transaction>, envelopes: seq<Envelope>, row: Transaction)
    requires TransactionsValid(t, envelopes) && row.id == t.nextId && HasEnvelopeId(envelopes, row.envelopeId)
    ensures TransactionsValid(Table(t.rows + [row], t.nextId + 1), envelopes)
  {
    var rows' := t.rows + [row];
    forall i | 0 <= i < |rows'| ensures HasEnvelopeId(envelopes, rows'[i].envelopeId) {
      if i < |t.rows| {
        assert rows'[i] == t.rows[i];
      }
    }
  }

  // ----- pruning -----

  /**
   * The WHERE clause of prune_old_transactions:
   * `strftime('%Y-%m-%d', timestamp) < cutoff`, compared as text. A stamp
   * SQLite cannot print (outside years 0000 to 9999) gives NULL and is kept.
   */
  predicate IsPruned(cutoff: Date, t: Transaction)
  {
    match SqlDate(t.stamped)
    case Some(s) => StrLt(s, FormatDate(cutoff))
    case None => false
  }

  function PrunedBy(cutoff: Date): Transaction -> bool
  {
    t => IsPruned(cutoff, t)
  }

  /** On dates SQLite can print, the text comparison is the calendar order: strictly earlier rows go. */
  lemma PrunedIffEarlier(cutoff: Date, t: Transaction)
    requires IsValid(cutoff) && InSqlRange(cutoff) && IsValid(t.stamped) && InSqlRange(t.stamped)
    ensures IsPruned(cutoff, t) <==> Before(t.stamped, cutoff)
  {
    FormatDateOrder(t.stamped, cutoff);
  }

  /**
   * prune_old_transactions: deletes the rows selected by `IsPruned` and
   * returns how many it deleted.
   */
  method PruneOldTransactions(db: Store, cutoff: Date) returns (removed: nat)
    modifies db
    ensures db.transactions == old(db.transactions).(rows := Reject(old(db.transactions.rows), PrunedBy(cutoff)))
    ensures removed == Count(old(db.transactions.rows), PrunedBy(cutoff))
    ensures removed + |db.transactions.rows| == |old(db.transactions.rows)|
    ensures db.envelopes == old(db.envelopes) && db.products == old(db.products) && db.systemState == old(db.systemState)
    ensures old(db.Valid()) ==> db.Valid()
  {
    ghost var before := db.transactions;
    removed := Count(db.transactions.rows, PrunedBy(cutoff));
    db.transactions := db.transactions.(rows := Reject(db.transactions.rows, PrunedBy(cutoff)));
    if old(db.Valid()) {
      RejectKeepsTransactionsValid(before, db.envelopes.rows, PrunedBy(cutoff));
    }
  }

  /**
   * Exactly the rows dated strictly before the cutoff are gone and every
   * row on or after it stays; a row is kept or deleted, never altered.
   */
  lemma PruneKeepsExactlyLaterRows(rows: seq<Transaction>, cutoff: Date)
    requires IsValid(cutoff) && InSqlRange(cutoff)
    requires forall i :: 0 <= i < |rows| ==> IsValid(rows[i].stamped) && InSqlRange(rows[i].stamped)
    ensures forall t :: t in Reject(rows, PrunedBy(cutoff)) <==> t in rows && !Before(t.stamped, cutoff)
    ensures |rows| - |Reject(rows, PrunedBy(cutoff))| == Count(rows, PrunedBy(cutoff))
  {
    forall t | t in rows ensures IsPruned(cutoff, t) <==> Before(t.stamped, cutoff) {
      PrunedIffEarlier(cutoff, t);
    }
  }

  lemma RejectKeepsTransactionsValid(t: Table<Transaction>, envelopes: seq<Envelope>, p: Transaction -> bool)
    requires TransactionsValid(t, envelopes)
    ensures TransactionsValid(t.(rows := Reject(t.rows, p)), envelopes)
  {
    var r := Reject(t.rows, p);
    forall i | 0 <= i < |r| ensures r[i].id < t.nextId && HasEnvelopeId(envelopes, r[i].envelopeId) {
      assert r[i] in t.rows;
    }
    RejectKeepsPairwise(t.rows, p, (a: Transaction, b: Transaction) => a.id != b.id);
  }

  // ----- the month's spending -----

  /**
   * The WHERE clause of get_actual_spending_this_month: this envelope, type
   * `'spend'`, and `strftime('%Y-%m', timestamp)` equal to the key
   * `format!("{:04}-{:02}", year, month)`.
   */
  predicate CountsAsSpending(t: Transaction, envelopeId: nat, year: int, month: nat)
  {
    t.envelopeId == envelopeId && t.kind == "spend" && SqlMonth(t.stamped) == Some(PaddedMonthKey(year, month))
  }

  /** `SELECT COALESCE(SUM(amount), 0.0)` over the selected rows. */
  function MonthSpending(rows: seq<Transaction>, envelopeId: nat, year: int, month: nat): real
  {
    if rows == [] then 0.0
    else (if CountsAsSpending(rows[0], envelopeId, year, month) then rows[0].amount else 0.0)
         + MonthSpending(rows[1..], envelopeId, year, month)
  }

  /** Sum of a sequence of amounts: the reference an aggregate is checked against. */
  function Total(rows: seq<Transaction>): real
  {
    if rows == [] then 0.0 else rows[0].amount + Total(rows[1..])
  }

  /** The month's spending is the total of exactly the selected rows. */
  lemma {:induction false} MonthSpendingIsTotalOfSelected(rows: seq<Transaction>, envelopeId: nat, year: int, month: nat)
    ensures MonthSpending(rows, envelopeId, year, month)
      == Total(Filter(rows, (t: Transaction) => CountsAsSpending(t, envelopeId, year, month)))
  {
    if rows != [] {
      MonthSpendingIsTotalOfSelected(rows[1..], envelopeId, year, month);
    }
  }

  /** With no selected row the sum is 0 (the COALESCE). */
  lemma {:induction false} MonthSpendingNoneSelected(rows: seq<Transaction>, envelopeId: nat, year: int, month: nat)
    requires forall i :: 0 <= i < |rows| ==> !CountsAsSpending(rows[i], envelopeId, year, month)
    ensures MonthSpending(rows, envelopeId, year, month) == 0.0
  {
    if rows != [] {
      MonthSpendingNoneSelected(rows[1..], envelopeId, year, month);
    }
  }

  /**
   * Recording a row adds its amount to the month's spending exactly when it
   * is a spend of this envelope in this month; deposits and other envelopes
   * leave the sum as it was.
   */
  lemma {:induction false} MonthSpendingAfterAppend(rows: seq<Transaction>, t: Transaction, envelopeId: nat, year: int, month: nat)
    ensures MonthSpending(rows + [t], envelopeId, year, month)
      == MonthSpending(rows, envelopeId, year, month) + (if CountsAsSpending(t, envelopeId, year, month) then t.amount else 0.0)
  {
    if rows == [] {
      assert [t][1..] == [];
    } else {
      assert (rows + [t])[1..] == rows[1..] + [t];
      MonthSpendingAfterAppend(rows[1..], t, envelopeId, year, month);
    }
  }

  /** For a date SQLite can print, the zero-padded key selects exactly the rows of that calendar month. */
  lemma MonthKeySelectsMonth(d: Date, year: int, month: nat)
    requires IsValid(d) && InSqlRange(d) && 0 <= year <= 9999 && 1 <= month <= 12
    ensures SqlMonth(d) == Some(PaddedMonthKey(year, month)) <==> d.year == year && d.month == month
  {
    var first := Date(year, month, 1);
    MonthKeysAgree(first);
    FormatMonthEqual(d, first);
  }
}
