/**
 * The product catalogue of the rusqlite generation (src/db/products.rs):
 * named unit prices charged to an envelope, hard-deleted by name.
 */
module ProductsV1 {
  import opened Wrappers
  import opened Text
  import opened Sorting
  import opened StoreV1

  /** `models::Product`: a product row joined with the name of its envelope. */
  datatype ProductView = ProductView(
    id: nat,
    name: string,
    price: real,
    envelopeId: nat,
    description: Option<string>,
    envelopeName: string)

  /** `JOIN envelopes e ON p.envelope_id = e.id` for one product: `None` when no envelope row matches. */
  function Join(p: Product, envelopes: seq<Envelope>): (r: Option<ProductView>)
    ensures r.Some? <==> HasEnvelopeId(envelopes, p.envelopeId)
    ensures r.Some? ==>
      && r.value.id == p.id && r.value.name == p.name && r.value.price == p.price
      && r.value.envelopeId == p.envelopeId && r.value.description == p.description
      && exists e :: e in envelopes && e.id == p.envelopeId && e.name == r.value.envelopeName
  {
    match FirstIndex(envelopes, (e: Envelope) => e.id == p.envelopeId)
    case Some(i) => Some(ProductView(p.id, p.name, p.price, p.envelopeId, p.description, envelopes[i].name))
    case None => None
  }

  /** The joined rows, in table order; a product without an envelope drops out of an inner join. */
  function Joined(products: seq<Product>, envelopes: seq<Envelope>): (r: seq<ProductView>)
    ensures |r| <= |products|
    ensures (forall i :: 0 <= i < |products| ==> HasEnvelopeId(envelopes, products[i].envelopeId)) ==> |r| == |products|
    ensures forall v :: v in r ==> exists p :: p in products && Join(p, envelopes) == Some(v)
  {
    if products == [] then []
    else
      var rest := Joined(products[1..], envelopes);
      match Join(products[0], envelopes)
      case Some(v) => [v] + rest
      case None => rest
  }

  /** get_product_by_name: the joined row of the product of that name. */
  function ProductByName(products: seq<Product>, envelopes: seq<Envelope>, name: string): (r: Option<ProductView>)
    ensures r.Some? ==> r.value.name == name && exists p :: p in products && Join(p, envelopes) == r
    ensures r.None? <==> forall p :: p in products && p.name == name ==> !HasEnvelopeId(envelopes, p.envelopeId)
  {
    match FirstIndex(products, (p: Product) => p.name == name && Join(p, envelopes).Some?)
    case Some(i) => Join(products[i], envelopes)
    case None => None
  }

  /** get_product_by_id: the joined row of the product with that id. */
  function ProductById(products: seq<Product>, envelopes: seq<Envelope>, id: nat): (r: Option<ProductView>)
    ensures r.Some? ==> r.value.id == id && exists p :: p in products && Join(p, envelopes) == r
    ensures r.None? <==> forall p :: p in products && p.id == id ==> !HasEnvelopeId(envelopes, p.envelopeId)
  {
    match FirstIndex(products, (p: Product) => p.id == id && Join(p, envelopes).Some?)
    case Some(i) => Join(products[i], envelopes)
    case None => None
  }

  predicate ViewNameLe(a: ProductView, b: ProductView)
  {
    StrLe(a.name, b.name)
  }

  lemma ViewNameLeIsTotalPreorder()
    ensures IsTotalPreorder(ViewNameLe)
  {
    forall a: ProductView, b: ProductView ensures ViewNameLe(a, b) || ViewNameLe(b, a) {
      StrLeTotal(a.name, b.name);
    }
    forall a: ProductView, b: ProductView, c: ProductView | ViewNameLe(a, b) && ViewNameLe(b, c) ensures ViewNameLe(a, c) {
      StrLeTrans(a.name, b.name, c.name);
    }
  }

  /** list_all_products: every joined product, `ORDER BY p.name ASC`. */
  function ListAllProducts(products: seq<Product>, envelopes: seq<Envelope>): (r: seq<ProductView>)
    ensures multiset(r) == multiset(Joined(products, envelopes))
    ensures SortedBy(r, ViewNameLe)
  {
    ViewNameLeIsTotalPreorder();
    SortBy(Joined(products, envelopes), ViewNameLe)
  }

  function Names(products: seq<Product>): (r: seq<string>)
    ensures |r| == |products| && forall i :: 0 <= i < |r| ==> r[i] == products[i].name
  {
    seq(|products|, i requires 0 <= i < |products| => products[i].name)
  }

  lemma StrLeIsTotalPreorder()
    ensures IsTotalPreorder(StrLe)
  {
    forall a: string, b: string ensures StrLe(a, b) || StrLe(b, a) {
      StrLeTotal(a, b);
    }
    forall a: string, b: string, c: string | StrLe(a, b) && StrLe(b, c) ensures StrLe(a, c) {
      StrLeTrans(a, b, c);
    }
  }

  /** get_all_product_names: `SELECT name FROM products ORDER BY name ASC`. */
  function AllProductNames(products: seq<Product>): (r: seq<string>)
    ensures multiset(r) == multiset(Names(products))
    ensures SortedBy(r, StrLe)
  {
    StrLeIsTotalPreorder();
    SortBy(Names(products), StrLe)
  }

  /** Under the catalogue's invariant every product joins, so the listings hold one entry per product. */
  lemma ListingHasEveryProduct(t: Table<Product>, envelopes: seq<Envelope>)
    requires ProductsValid(t, envelopes)
    ensures |ListAllProducts(t.rows, envelopes)| == |t.rows|
    ensures |AllProductNames(t.rows)| == |t.rows|
  {
    var r := ListAllProducts(t.rows, envelopes);
    assert |r| == |multiset(r)|;
    assert |AllProductNames(t.rows)| == |multiset(AllProductNames(t.rows))|;
  }

  // ----- writes -----

  /**
   * What `INSERT INTO products` does after add_product's own check: a
   * negative price is refused before any statement runs, then SQLite refuses
   * a taken name (the UNIQUE column) and an envelope id naming no envelope.
   */
  function InsertProduct(t: Table<Product>, envelopes: seq<Envelope>, name: string, price: real,
                         envelopeId: nat, description: Option<string>): (r: Result<Table<Product>, Error>)
    ensures price < 0.0 ==> r == Err(NegativePrice)
    ensures price >= 0.0 && (exists i :: 0 <= i < |t.rows| && t.rows[i].name == name) ==> r == Err(UniqueViolation(ProductNameIndex))
    ensures r.Ok? <==> price >= 0.0 && (forall i :: 0 <= i < |t.rows| ==> t.rows[i].name != name) && HasEnvelopeId(envelopes, envelopeId)
    ensures r.Ok? ==> r.value == Table(t.rows + [Product(t.nextId, name, price, envelopeId, description)], t.nextId + 1)
    ensures r.Ok? && ProductsValid(t, envelopes) ==> ProductsValid(r.value, envelopes)
  {
    if price < 0.0 then Err(NegativePrice)
    else if FirstIndex(t.rows, (p: Product) => p.name == name).Some? then Err(UniqueViolation(ProductNameIndex))
    else if FirstIndex(envelopes, (e: Envelope) => e.id == envelopeId).None? then Err(ForeignKeyViolation)
    else
      var rows' := t.rows + [Product(t.nextId, name, price, envelopeId, description)];
      assert forall i :: 0 <= i < |t.rows| ==> rows'[i] == t.rows[i];
      Ok(Table(rows', t.nextId + 1))
  }

  /** add_product: returns the new product's id. */
  method AddProduct(db: Store, name: string, price: real, envelopeId: nat, description: Option<string>)
    returns (r: Result<nat, Error>)
    modifies db
    ensures var spec := InsertProduct(old(db.products), old(db.envelopes.rows), name, price, envelopeId, description);
      && (spec.Ok? ==> r == Ok(old(db.products.nextId)) && db.products == spec.value)
      && (spec.Err? ==> r == Err(spec.error) && db.products == old(db.products))
    ensures db.envelopes == old(db.envelopes) && db.transactions == old(db.transactions) && db.systemState == old(db.systemState)
    ensures old(db.Valid()) ==> db.Valid()
  {
    var inserted := InsertProduct(db.products, db.envelopes.rows, name, price, envelopeId, description);
    if inserted.Err? {
      return Err(inserted.error);
    }
    var id := db.products.nextId;
    db.products := inserted.value;
    return Ok(id);
  }

  /** `UPDATE products SET price = ? WHERE id = ?` on the rows themselves. */
  function WithPrice(rows: seq<Product>, id: nat, price: real): (r: seq<Product>)
    ensures |r| == |rows|
    ensures forall i :: 0 <= i < |rows| ==> r[i] == if rows[i].id == id then rows[i].(price := price) else rows[i]
  {
    seq(|rows|, i requires 0 <= i < |rows| => if rows[i].id == id then rows[i].(price := price) else rows[i])
  }

  /** update_product_price: a negative price is refused; otherwise the number of rows updated. */
  method UpdateProductPrice(db: Store, id: nat, price: real) returns (r: Result<nat, Error>)
    modifies db
    ensures price < 0.0 ==> r == Err(NegativePrice) && db.products == old(db.products)
    ensures price >= 0.0 ==>
      && r == Ok(Count(old(db.products.rows), (p: Product) => p.id == id))
      && db.products == old(db.products).(rows := WithPrice(old(db.products.rows), id, price))
    ensures db.envelopes == old(db.envelopes) && db.transactions == old(db.transactions) && db.systemState == old(db.systemState)
    ensures old(db.Valid()) ==> db.Valid()
  {
    if price < 0.0 {
      return Err(NegativePrice);
    }
    var affected := Count(db.products.rows, (p: Product) => p.id == id);
    db.products := db.products.(rows := WithPrice(db.products.rows, id, price));
    return Ok(affected);
  }

  /** `DELETE FROM products WHERE name = ?` */
  function NamedBy(name: string): Product -> bool
  {
    (p: Product) => p.name == name
  }

  /** delete_product_by_name: returns the number of rows deleted. */
  method DeleteProductByName(db: Store, name: string) returns (deleted: nat)
    modifies db
    ensures deleted == Count(old(db.products.rows), NamedBy(name))
    ensures db.products == old(db.products).(rows := Reject(old(db.products.rows), NamedBy(name)))
    ensures db.envelopes == old(db.envelopes) && db.transactions == old(db.transactions) && db.systemState == old(db.systemState)
    ensures old(db.Valid()) ==> db.Valid()
  {
    ghost var before := db.products;
    deleted := Count(db.products.rows, NamedBy(name));
    db.products := db.products.(rows := Reject(db.products.rows, NamedBy(name)));
    if old(db.Valid()) {
      RejectKeepsProductsValid(before, db.envelopes.rows, NamedBy(name));
    }
  }

  lemma RejectKeepsProductsValid(t: Table<Product>, envelopes: seq<Envelope>, p: Product -> bool)
    requires ProductsValid(t, envelopes)
    ensures ProductsValid(t.(rows := Reject(t.rows, p)), envelopes)
  {
    var r := Reject(t.rows, p);
    forall i | 0 <= i < |r| ensures r[i].id < t.nextId && HasEnvelopeId(envelopes, r[i].envelopeId) {
      assert r[i] in t.rows;
    }
    RejectKeepsPairwise(t.rows, p, (a: Product, b: Product) => a.id != b.id);
    RejectKeepsPairwise(t.rows, p, (a: Product, b: Product) => a.name != b.name);
  }

  // ----- properties of the catalogue -----

  /** A second product of a taken name is refused, and the catalogue is left as it was. */
  lemma DuplicateNameRefused(t: Table<Product>, envelopes: seq<Envelope>, p: Product, price: real, envelopeId: nat, description: Option<string>)
    requires p in t.rows && price >= 0.0
    ensures InsertProduct(t, envelopes, p.name, price, envelopeId, description) == Err(UniqueViolation(ProductNameIndex))
  {
  }

  /** A product just added is found by its name, with the price given and its envelope's name. */
  lemma AddedProductFound(t: Table<Product>, envelopes: seq<Envelope>, name: string, price: real, envelopeId: nat, description: Option<string>)
    requires ProductsValid(t, envelopes)
    requires InsertProduct(t, envelopes, name, price, envelopeId, description).Ok?
    ensures var t' := InsertProduct(t, envelopes, name, price, envelopeId, description).value;
      var v := ProductByName(t'.rows, envelopes, name);
      v.Some? && v.value.id == t.nextId && v.value.price == price && v.value.envelopeId == envelopeId
      && v.value.description == description
  {
    var t' := InsertProduct(t, envelopes, name, price, envelopeId, description).value;
    var n := |t.rows|;
    assert t'.rows[n] == Product(t.nextId, name, price, envelopeId, description);
    assert Join(t'.rows[n], envelopes).Some?;
    var v := ProductByName(t'.rows, envelopes, name);
    assert v.Some?;
    var p :| p in t'.rows && Join(p, envelopes) == v;
    assert p !in t.rows;
  }

  /** Deleting by name removes 1 row for a product that exists and 0 otherwise, and the name no longer resolves. */
  lemma DeleteByNameRemovesOne(t: Table<Product>, envelopes: seq<Envelope>, name: string)
    requires ProductsValid(t, envelopes)
    ensures Count(t.rows, NamedBy(name)) == (if exists i :: 0 <= i < |t.rows| && t.rows[i].name == name then 1 else 0)
    ensures ProductByName(Reject(t.rows, NamedBy(name)), envelopes, name).None?
  {
    CountUnique(t.rows, name);
  }

  lemma {:induction false} CountUnique(rows: seq<Product>, name: string)
    requires forall i, j :: 0 <= i < j < |rows| ==> rows[i].name != rows[j].name
    ensures Count(rows, NamedBy(name)) == (if exists i :: 0 <= i < |rows| && rows[i].name == name then 1 else 0)
  {
    if rows != [] {
      CountUnique(rows[1..], name);
      if rows[0].name == name {
        assert forall i :: 0 <= i < |rows[1..]| ==> rows[1..][i] == rows[i + 1];
      } else {
        if exists i :: 0 <= i < |rows| && rows[i].name == name {
          var i :| 0 <= i < |rows| && rows[i].name == name;
          assert rows[1..][i - 1] == rows[i];
        }
      }
    }
  }

  /** An update of an id no product has affects no row and changes nothing. */
  lemma UpdateUnknownIdChangesNothing(rows: seq<Product>, id: nat, price: real)
    requires forall i :: 0 <= i < |rows| ==> rows[i].id != id
    ensures Count(rows, (p: Product) => p.id == id) == 0
    ensures WithPrice(rows, id, price) == rows
  {
    CountNoneMatch(rows, id);
  }

  lemma {:induction false} CountNoneMatch(rows: seq<Product>, id: nat)
    requires forall i :: 0 <= i < |rows| ==> rows[i].id != id
    ensures Count(rows, (p: Product) => p.id == id) == 0
  {
    if rows != [] {
      CountNoneMatch(rows[1..], id);
    }
  }
}
