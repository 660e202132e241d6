/**
 * The ledger commands of the sea-orm generation (src/bot/commands/transaction.rs):
 * spend and addfunds check their amount, resolve the target user by
 * nickname, look the envelope up for that user only, and have the core
 * record a signed amount.
 */
module TransactionBot {
  import opened Wrappers
  import opened Floats
  import opened StoreV2
  import opened EnvelopeCore
  import opened TransactionCore

  /** The reply a command chooses; refusals are replies, not errors. */
  datatype LedgerReply =
    | NotANumber
    | NonPositiveAmount
    | UnknownNickname
    | NotFound
    | Recorded(transaction: Transaction)

  /** Which command: spend takes money out, addfunds puts it in. */
  datatype Direction = Spend | AddFunds

  /** The signed amount handed to the core: negative for a spend. */
  function Signed(d: Direction, amount: real): (a: real)
    ensures d.Spend? ==> a == -amount
    ensures d.AddFunds? ==> a == amount
  {
    if d.Spend? then -amount else amount
  }

  /** The transaction type each command records. */
  function Kind(d: Direction): string
  {
    if d.Spend? then "spend" else "addfunds"
  }

  /** The description used when none is given. */
  function DefaultDescription(d: Direction): string
  {
    if d.Spend? then "Transaction" else "Income"
  }

  /**
   * The user whose envelope is meant: the author, or the user a nickname
   * names (`nicknames` stands for the configured nicknames; resolving them
   * is not part of this model).
   */
  function TargetUser(user: Option<string>, author: UserId, nicknames: map<string, UserId>): (r: Option<UserId>)
    ensures user.None? ==> r == Some(author)
    ensures user.Some? ==> (r.Some? <==> user.value in nicknames)
    ensures user.Some? && r.Some? ==> r.value == nicknames[user.value]
  {
    if user.None? then Some(author)
    else if user.value in nicknames then Some(nicknames[user.value])
    else None
  }

  /**
   * What spend or addfunds did to the envelope and transaction tables and
   * which reply it chose, in the order of its checks: the amount (NaN or
   * infinite, then not positive), the nickname, the envelope of that name
   * owned by the target user, and then the core's own refusals. The row is
   * recorded under the author, whoever the target user is.
   */
  predicate LedgerEffect(envelopes0: Table<Envelope>, log0: Table<Transaction>,
                         envelopes: Table<Envelope>, log: Table<Transaction>, r: Result<LedgerReply, Error>,
                         d: Direction, envelopeName: string, amount: F64, user: Option<string>,
                         description: Option<string>, author: UserId, nicknames: map<string, UserId>, now: int)
  {
    var kept := envelopes == envelopes0 && log == log0;
    && (IsNanOrInfinite(amount) ==> r == Ok(NotANumber) && kept)
    && (IsFinite(amount) && amount.r <= 0.0 ==> r == Ok(NonPositiveAmount) && kept)
    && (IsFinite(amount) && amount.r > 0.0 ==>
          var target := TargetUser(user, author, nicknames);
          && (target.None? ==> r == Ok(UnknownNickname) && kept)
          && (target.Some? ==>
                var e := ByNameAndUser(envelopes0.rows, envelopeName, target.value);
                && (e.None? ==> r == Ok(NotFound) && kept)
                && (e.Some? ==>
                      var a := Signed(d, amount.r);
                      var refusal := TransactionCore.CreateRefusal(envelopes0.rows, e.value.id, Num(a));
                      && (refusal.Some? ==> r == Err(refusal.value) && kept)
                      && (refusal.None? ==>
                            && r == Ok(Recorded(Transaction(log0.nextId, e.value.id, a, description.UnwrapOr(DefaultDescription(d)),
                                                            now, author, None, Kind(d))))
                            && log == Table(log0.rows + [r.value.transaction], log0.nextId + 1)
                            && envelopes == envelopes0.(rows := AddToBalance(envelopes0.rows, e.value.id, a))))))
  }

  /** The body spend and addfunds share. */
  method Record(db: Store, d: Direction, envelopeName: string, amount: F64, user: Option<string>,
                description: Option<string>, author: UserId, nicknames: map<string, UserId>, now: int)
    returns (r: Result<LedgerReply, Error>)
    modifies db
    ensures LedgerEffect(old(db.envelopes), old(db.transactions), db.envelopes, db.transactions, r,
                         d, envelopeName, amount, user, description, author, nicknames, now)
    ensures db.products == old(db.products) && db.systemState == old(db.systemState)
    ensures old(db.Valid()) ==> db.Valid()
  {
    if IsNanOrInfinite(amount) {
      return Ok(NotANumber);
    }
    if amount.r <= 0.0 {
      return Ok(NonPositiveAmount);
    }
    var target := TargetUser(user, author, nicknames);
    if target.None? {
      return Ok(UnknownNickname);
    }
    var e := ByNameAndUser(db.envelopes.rows, envelopeName, target.value);
    if e.None? {
      return Ok(NotFound);
    }
    var recorded := CreateTransaction(db, e.value.id, Num(Signed(d, amount.r)), description.UnwrapOr(DefaultDescription(d)),
                                      author, None, Kind(d), now);
    if recorded.Err? {
      return Err(recorded.error);
    }
    return Ok(Recorded(recorded.value));
  }

  /** spend: records `-amount` as a "spend" transaction, described "Transaction" unless a description is given. */
  method SpendCommand(db: Store, envelopeName: string, amount: F64, user: Option<string>,
                      description: Option<string>, author: UserId, nicknames: map<string, UserId>, now: int)
    returns (r: Result<LedgerReply, Error>)
    modifies db
    ensures LedgerEffect(old(db.envelopes), old(db.transactions), db.envelopes, db.transactions, r,
                         Spend, envelopeName, amount, user, description, author, nicknames, now)
    ensures db.products == old(db.products) && db.systemState == old(db.systemState)
    ensures old(db.Valid()) ==> db.Valid()
  {
    r := Record(db, Spend, envelopeName, amount, user, description, author, nicknames, now);
  }

  /** addfunds: records `+amount` as an "addfunds" transaction, described "Income" unless a description is given. */
  method AddFundsCommand(db: Store, envelopeName: string, amount: F64, user: Option<string>,
                         description: Option<string>, author: UserId, nicknames: map<string, UserId>, now: int)
    returns (r: Result<LedgerReply, Error>)
    modifies db
    ensures LedgerEffect(old(db.envelopes), old(db.transactions), db.envelopes, db.transactions, r,
                         AddFunds, envelopeName, amount, user, description, author, nicknames, now)
    ensures db.products == old(db.products) && db.systemState == old(db.systemState)
    ensures old(db.Valid()) ==> db.Valid()
  {
    r := Record(db, AddFunds, envelopeName, amount, user, description, author, nicknames, now);
  }

  /**
   * The commands look an envelope up for the target user only: when every
   * active envelope of that name is shared, the name is not found.
   */
  lemma SharedNeverReached(rows: seq<Envelope>, name: string, user: UserId)
    requires forall e :: e in rows && e.name == name && !e.isDeleted ==> e.userId.None?
    ensures ByNameAndUser(rows, name, user).None?
  {
  }

  /** Spending an amount and adding it back leaves every balance as it was. */
  lemma SpendThenAddFunds(rows: seq<Envelope>, id: nat, amount: real)
    ensures AddToBalance(AddToBalance(rows, id, Signed(Spend, amount)), id, Signed(AddFunds, amount)) == rows
  {
    AddToBalanceInverse(rows, id, -amount);
  }

  /**
   * A spend is refused exactly when it would overdraw the envelope, and
   * adding funds to an envelope that is not overdrawn is never refused.
   */
  lemma LedgerRefusals(rows: seq<Envelope>, e: Envelope, amount: real)
    requires LiveById(rows, e.id) == Some(e) && amount > 0.0
    ensures TransactionCore.CreateRefusal(rows, e.id, Num(Signed(Spend, amount))).Some? <==> e.balance < amount
    ensures e.balance < amount ==> TransactionCore.CreateRefusal(rows, e.id, Num(Signed(Spend, amount))) == Some(InsufficientFunds(e.balance, amount))
    ensures e.balance >= 0.0 ==> TransactionCore.CreateRefusal(rows, e.id, Num(Signed(AddFunds, amount))).None?
  {
  }

  /**
   * Two users' envelopes of the same name are independent: Alice spending
   * 50 from her "Groceries" leaves it at 50 and Bob's at 100.
   */
  lemma TwoUsersIndependent()
    ensures var alice := Envelope(1, "Groceries", "food", 100.0, 100.0, true, Some("alice"), false, false);
      var bob := Envelope(2, "Groceries", "food", 100.0, 100.0, true, Some("bob"), false, false);
      && ByNameAndUser([alice, bob], "Groceries", "alice") == Some(alice)
      && TransactionCore.CreateRefusal([alice, bob], 1, Num(Signed(Spend, 50.0))).None?
      && AddToBalance([alice, bob], 1, Signed(Spend, 50.0)) == [alice.(balance := 50.0), bob]
  {
    var alice := Envelope(1, "Groceries", "food", 100.0, 100.0, true, Some("alice"), false, false);
    var bob := Envelope(2, "Groceries", "food", 100.0, 100.0, true, Some("bob"), false, false);
    assert IsOwnedNamed(alice, "Groceries", "alice");
    assert ById([alice, bob], 1) == Some(alice);
    assert AddToBalance([alice, bob], 1, -50.0)[1] == bob;
  }
}
