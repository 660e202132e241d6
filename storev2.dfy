/**
 * The sea-orm generation of the ledger engine: the rows of the `envelopes`,
 * `transactions`, `products` and `system_state` entities (the files under src/entities)
 * and the error type of src/errors.rs.
 */
module StoreV2 {
  import opened Wrappers
  import opened Floats
  import opened Text

  /** A Discord user id, as decimal text. */
  type UserId = string

  /** An `envelopes` row; `userId` is `None` for a shared envelope. */
  datatype Envelope = Envelope(
    id: nat,
    name: string,
    category: string,
    allocation: real,
    balance: real,
    isIndividual: bool,
    userId: Option<UserId>,
    rollover: bool,
    isDeleted: bool)

  /**
   * A `transactions` row. The amount is signed (positive adds funds,
   * negative spends); `timestamp` is the UTC instant as a count of ticks.
   */
  datatype Transaction = Transaction(
    id: nat,
    envelopeId: nat,
    amount: real,
    description: string,
    timestamp: int,
    userId: UserId,
    messageId: Option<string>,
    kind: string)

  /** A `products` row: a unit price charged to an envelope, soft-deleted. */
  datatype Product = Product(
    id: nat,
    name: string,
    price: real,
    envelopeId: nat,
    isDeleted: bool)

  /** A `system_state` row; its primary key is `id`, not `key`. */
  datatype StateRow = StateRow(id: nat, key: string, value: string)

  /** An auto-increment table: its rows and the id the next insert gets. */
  datatype Table<R> = Table(rows: seq<R>, nextId: nat)

  /**
   * `Error` of src/errors.rs, with the variants the core raises.
   * `Database` stands for any `DbErr` of the store.
   */
  datatype Error =
    | Database
    | EnvelopeNotFound(name: string)
    | ProductNotFound(name: string)
    | InsufficientFunds(current: real, required: real)
    | InvalidAmount(amount: F64)
    | Config(message: string)
    | DuplicateSharedEnvelope(name: string, count: nat)
    | IndividualEnvelopeWithoutUser(name: string)

  /** `i64::to_string` of a (non-negative) id. */
  function IdText(id: nat): (r: string)
    ensures AllDigits(r) && |r| >= 1
  {
    Pad(id, 0)
  }

  predicate HasEnvelopeId(rows: seq<Envelope>, id: nat)
  {
    exists i :: 0 <= i < |rows| && rows[i].id == id
  }

  predicate EnvelopeIdsValid(t: Table<Envelope>)
  {
    && (forall i :: 0 <= i < |t.rows| ==> t.rows[i].id < t.nextId)
    && (forall i, j :: 0 <= i < j < |t.rows| ==> t.rows[i].id != t.rows[j].id)
  }

  /** Ids are distinct and below the next id; every row names an envelope row. */
  predicate TransactionsValid(t: Table<Transaction>, envelopes: seq<Envelope>)
  {
    && (forall i :: 0 <= i < |t.rows| ==> t.rows[i].id < t.nextId)
    && (forall i, j :: 0 <= i < j < |t.rows| ==> t.rows[i].id != t.rows[j].id)
    && (forall i :: 0 <= i < |t.rows| ==> HasEnvelopeId(envelopes, t.rows[i].envelopeId))
  }

  predicate ProductIdsValid(t: Table<Product>)
  {
    && (forall i :: 0 <= i < |t.rows| ==> t.rows[i].id < t.nextId)
    && (forall i, j :: 0 <= i < j < |t.rows| ==> t.rows[i].id != t.rows[j].id)
  }

  predicate StateIdsValid(t: Table<StateRow>)
  {
    && (forall i :: 0 <= i < |t.rows| ==> t.rows[i].id < t.nextId)
    && (forall i, j :: 0 <= i < j < |t.rows| ==> t.rows[i].id != t.rows[j].id)
  }

  /** The database behind `DatabaseConnection`. */
  class Store {
    var envelopes: Table<Envelope>
    var transactions: Table<Transaction>
    var products: Table<Product>
    var systemState: Table<StateRow>

    /**
     * Primary keys are unique and below the next id, and every transaction
     * names an envelope row. Envelope rows are only ever soft-deleted, so the
     * reference survives.
     */
    ghost predicate Valid()
      reads this
    {
      && EnvelopeIdsValid(envelopes)
      && TransactionsValid(transactions, envelopes.rows)
      && ProductIdsValid(products)
      && StateIdsValid(systemState)
    }

    /** A freshly migrated database: empty tables. */
    constructor()
      ensures Valid()
      ensures envelopes.rows == [] && transactions.rows == [] && products.rows == [] && systemState.rows == []
    {
      envelopes := Table([], 1);
      transactions := Table([], 1);
      products := Table([], 1);
      systemState := Table([], 1);
    }
  }

  /** Changing rows in place without touching their ids keeps every reference to them. */
  lemma SameIdsKeepReferences(a: seq<Envelope>, b: seq<Envelope>)
    requires |a| == |b| && forall i :: 0 <= i < |a| ==> a[i].id == b[i].id
    ensures forall id :: HasEnvelopeId(a, id) ==> HasEnvelopeId(b, id)
  {
    forall id | HasEnvelopeId(a, id) ensures HasEnvelopeId(b, id) {
      var i :| 0 <= i < |a| && a[i].id == id;
      assert b[i].id == id;
    }
  }

  /** Appending an envelope keeps every reference and adds its own id. */
  lemma AppendKeepsReferences(a: seq<Envelope>, e: Envelope)
    ensures forall id :: HasEnvelopeId(a, id) ==> HasEnvelopeId(a + [e], id)
    ensures HasEnvelopeId(a + [e], e.id)
  {
    forall id | HasEnvelopeId(a, id) ensures HasEnvelopeId(a + [e], id) {
      var i :| 0 <= i < |a| && a[i].id == id;
      assert (a + [e])[i].id == id;
    }
    assert (a + [e])[|a|] == e;
  }

  /** Rewriting envelope rows in place without touching their ids keeps the ids and the references valid. */
  lemma SameIdsKeepValid(before: Table<Envelope>, after: Table<Envelope>, log: Table<Transaction>)
    requires EnvelopeIdsValid(before) && TransactionsValid(log, before.rows)
    requires after.nextId == before.nextId && |after.rows| == |before.rows|
    requires forall i :: 0 <= i < |before.rows| ==> after.rows[i].id == before.rows[i].id
    ensures EnvelopeIdsValid(after) && TransactionsValid(log, after.rows)
  {
    SameIdsKeepReferences(before.rows, after.rows);
  }
}
