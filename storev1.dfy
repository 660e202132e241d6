/**
 * The rusqlite generation of the ledger engine: the rows of the `envelopes`,
 * `transactions`, `products` and `system_state` tables and the constraints
 * the schema puts on them (src/db/schema.rs).
 */
module StoreV1 {
  import opened Wrappers
  import opened Calendar

  /** A Discord user id, as decimal text. */
  type UserId = string

  /**
   * A row of `envelopes`. `userId` is `None` for a shared envelope (SQL NULL);
   * an individual envelope has one row per user.
   */
  datatype Envelope = Envelope(
    id: nat,
    name: string,
    category: string,
    allocation: real,
    balance: real,
    isIndividual: bool,
    userId: Option<UserId>,
    rollover: bool,
    isDeleted: bool)

  /** A row of `transactions`; `stamped` is the UTC date of its timestamp. */
  datatype Transaction = Transaction(
    id: nat,
    envelopeId: nat,
    amount: real,
    description: string,
    stamped: Date,
    userId: UserId,
    messageId: Option<string>,
    kind: string)

  /** A row of `products`: a unit price charged to an envelope. */
  datatype Product = Product(
    id: nat,
    name: string,
    price: real,
    envelopeId: nat,
    description: Option<string>)

  /** A row of `system_state`, whose primary key is `key`. */
  datatype StateRow = StateRow(key: string, value: string)

  /** An `INTEGER PRIMARY KEY AUTOINCREMENT` table: its rows and the id the next insert gets. */
  datatype Table<R> = Table(rows: seq<R>, nextId: nat)

  /** What a statement can fail with: `Error::Database` for a violated constraint, `Error::Command` for a refused request. */
  datatype Error =
    | UniqueViolation(index: string)
    | ForeignKeyViolation
    | NegativePrice
    | IndividualFlagMismatch

  /** The constraint text SQLite reports for a second product of one name. */
  const ProductNameIndex := "products.name"
  const EnvelopeNameIndex := "envelopes.name"

  /** The key of the two partial unique indexes on `envelopes`: the name, and the owner or NULL. */
  predicate HasKey(e: Envelope, name: string, owner: Option<UserId>)
  {
    e.name == name && e.userId == owner
  }

  predicate HasEnvelopeId(rows: seq<Envelope>, id: nat)
  {
    exists i :: 0 <= i < |rows| && rows[i].id == id
  }

  /**
   * The envelope table's invariant: ids are distinct and below the next id;
   * no two rows, soft-deleted ones included, share a name and owner; and a
   * row is individual exactly when it has an owner.
   */
  predicate EnvelopesValid(t: Table<Envelope>)
  {
    && (forall i :: 0 <= i < |t.rows| ==> t.rows[i].id < t.nextId)
    && (forall i, j :: 0 <= i < j < |t.rows| ==> t.rows[i].id != t.rows[j].id)
    && (forall i, j :: 0 <= i < j < |t.rows| ==> !HasKey(t.rows[j], t.rows[i].name, t.rows[i].userId))
    && (forall i :: 0 <= i < |t.rows| ==> (t.rows[i].isIndividual <==> t.rows[i].userId.Some?))
  }

  /** Transaction ids are distinct, and every envelope id names an envelope (the foreign key). */
  predicate TransactionsValid(t: Table<Transaction>, envelopes: seq<Envelope>)
  {
    && (forall i :: 0 <= i < |t.rows| ==> t.rows[i].id < t.nextId)
    && (forall i, j :: 0 <= i < j < |t.rows| ==> t.rows[i].id != t.rows[j].id)
    && (forall i :: 0 <= i < |t.rows| ==> HasEnvelopeId(envelopes, t.rows[i].envelopeId))
  }

  /** Product ids and names are distinct, and every product names an envelope. */
  predicate ProductsValid(t: Table<Product>, envelopes: seq<Envelope>)
  {
    && (forall i :: 0 <= i < |t.rows| ==> t.rows[i].id < t.nextId)
    && (forall i, j :: 0 <= i < j < |t.rows| ==> t.rows[i].id != t.rows[j].id)
    && (forall i, j :: 0 <= i < j < |t.rows| ==> t.rows[i].name != t.rows[j].name)
    && (forall i :: 0 <= i < |t.rows| ==> HasEnvelopeId(envelopes, t.rows[i].envelopeId))
  }

  /** `key` is the primary key of `system_state`: no two rows share one. */
  predicate StateValid(rows: seq<StateRow>)
  {
    forall i, j :: 0 <= i < j < |rows| ==> rows[i].key != rows[j].key
  }

  /** The SQLite database behind the `DbPool`. */
  class Store {
    var envelopes: Table<Envelope>
    var transactions: Table<Transaction>
    var products: Table<Product>
    var systemState: seq<StateRow>

    ghost predicate Valid()
      reads this
    {
      EnvelopesValid(envelopes)
      && TransactionsValid(transactions, envelopes.rows)
      && ProductsValid(products, envelopes.rows)
      && StateValid(systemState)
    }

    /** A freshly created database: empty tables. */
    constructor()
      ensures Valid()
      ensures envelopes.rows == [] && transactions.rows == [] && products.rows == [] && systemState == []
    {
      envelopes := Table([], 1);
      transactions := Table([], 1);
      products := Table([], 1);
      systemState := [];
    }
  }

  /** No two rows of a valid table hold one name and owner. */
  lemma KeyUnique(t: Table<Envelope>, i: nat, j: nat)
    requires EnvelopesValid(t) && i < |t.rows| && j < |t.rows|
    requires HasKey(t.rows[j], t.rows[i].name, t.rows[i].userId)
    ensures i == j
  {
    if j < i {
      assert HasKey(t.rows[i], t.rows[j].name, t.rows[j].userId);
    }
  }

  /** Envelope ids never disappear once a row changes only in its non-key fields. */
  lemma SameIdsKeepReferences(a: seq<Envelope>, b: seq<Envelope>)
    requires |a| == |b| && forall i :: 0 <= i < |a| ==> a[i].id == b[i].id
    ensures forall id :: HasEnvelopeId(a, id) ==> HasEnvelopeId(b, id)
  {
    forall id | HasEnvelopeId(a, id) ensures HasEnvelopeId(b, id) {
      var i :| 0 <= i < |a| && a[i].id == id;
      assert b[i].id == id;
    }
  }

  /** Appending an envelope keeps every existing reference valid. */
  lemma AppendKeepsReferences(a: seq<Envelope>, e: Envelope)
    ensures forall id :: HasEnvelopeId(a, id) ==> HasEnvelopeId(a + [e], id)
    ensures HasEnvelopeId(a + [e], e.id)
  {
    forall id | HasEnvelopeId(a, id) ensures HasEnvelopeId(a + [e], id) {
      var i :| 0 <= i < |a| && a[i].id == id;
      assert (a + [e])[i].id == id;
    }
    assert (a + [e])[|a|] == e;
  }
}
