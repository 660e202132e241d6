/**
 * Product operations of the sea-orm generation (src/core/product.rs): the
 * lookups, validated creation and update, and the soft delete.
 */
module ProductCore {
  import opened Wrappers
  import opened Text
  import opened Sorting
  import opened Floats
  import opened StoreV2

  // ----- lookups -----

  /** `ORDER BY name` */
  predicate ProductNameLe(a: Product, b: Product)
  {
    StrLe(a.name, b.name)
  }

  lemma ProductNameLeIsTotalPreorder()
    ensures IsTotalPreorder(ProductNameLe)
  {
    forall a, b ensures ProductNameLe(a, b) || ProductNameLe(b, a) {
      StrLeTotal(a.name, b.name);
    }
    forall a, b, c | ProductNameLe(a, b) && ProductNameLe(b, c) ensures ProductNameLe(a, c) {
      StrLeTrans(a.name, b.name, c.name);
    }
  }

  /** get_all_active_products: the rows not soft-deleted, by name. */
  function ActiveProducts(rows: seq<Product>): (r: seq<Product>)
    ensures multiset(r) == multiset(Filter(rows, (p: Product) => !p.isDeleted))
    ensures forall p :: p in r <==> p in rows && !p.isDeleted
    ensures SortedBy(r, ProductNameLe)
  {
    ProductNameLeIsTotalPreorder();
    var r := SortBy(Filter(rows, (p: Product) => !p.isDeleted), ProductNameLe);
    assert forall p :: p in r <==> p in Filter(rows, (p: Product) => !p.isDeleted) by {
      forall p ensures p in r <==> p in Filter(rows, (p: Product) => !p.isDeleted) {
        assert p in r <==> p in multiset(r);
      }
    }
    r
  }

  /** get_product_by_name: the first active row with that name (`.one()`). */
  function ProductByName(rows: seq<Product>, name: string): (r: Option<Product>)
    ensures r.Some? ==> r.value in rows && r.value.name == name && !r.value.isDeleted
    ensures r.None? <==> forall p :: p in rows ==> p.name != name || p.isDeleted
  {
    match FirstIndex(rows, (p: Product) => p.name == name && !p.isDeleted)
    case Some(i) => Some(rows[i])
    case None => None
  }

  /** get_product_by_id: `find_by_id`, soft-deleted rows included. */
  function ProductById(rows: seq<Product>, id: nat): (r: Option<Product>)
    ensures r.Some? ==> r.value in rows && r.value.id == id
    ensures r.None? <==> forall p :: p in rows ==> p.id != id
  {
    match FirstIndex(rows, (p: Product) => p.id == id)
    case Some(i) => Some(rows[i])
    case None => None
  }

  // ----- validation -----

  const EmptyProductNameMessage := "Product name cannot be empty"

  /**
   * The checks create_product and update_product share, in order: a blank
   * name, then `price < 0.0`, then a price that is not finite.
   */
  function CheckProduct(name: string, price: F64): (r: Option<Error>)
    ensures r.None? <==> !IsBlank(name) && IsFinite(price) && price.r >= 0.0
    ensures IsBlank(name) ==> r == Some(Config(EmptyProductNameMessage))
    ensures !IsBlank(name) && !(IsFinite(price) && price.r >= 0.0) ==> r == Some(InvalidAmount(price))
  {
    TrimEmptyIffBlank(name);
    if Trim(name) == [] then Some(Config(EmptyProductNameMessage))
    else if Below(price, 0.0) then Some(InvalidAmount(price))
    else if !IsFinite(price) then Some(InvalidAmount(price))
    else None
  }

  // ----- creation -----

  /**
   * create_product: after the checks, one row is inserted with the trimmed
   * name, the price, the envelope id and `is_deleted = false`. The
   * envelope id is not checked.
   */
  method CreateProduct(db: Store, name: string, price: F64, envelopeId: nat) returns (r: Result<Product, Error>)
    modifies db
    ensures r.Err? <==> CheckProduct(name, price).Some?
    ensures r.Err? ==> r.error == CheckProduct(name, price).value && db.products == old(db.products)
    ensures r.Ok? ==>
      && r.value == Product(old(db.products.nextId), Trim(name), price.r, envelopeId, false)
      && db.products == Table(old(db.products.rows) + [r.value], old(db.products.nextId) + 1)
    ensures db.envelopes == old(db.envelopes) && db.transactions == old(db.transactions) && db.systemState == old(db.systemState)
    ensures old(db.Valid()) ==> db.Valid()
  {
    var refusal := CheckProduct(name, price);
    if refusal.Some? {
      return Err(refusal.value);
    }
    var p := Product(db.products.nextId, Trim(name), price.r, envelopeId, false);
    InsertProduct(db, p);
    return Ok(p);
  }

  /** The INSERT itself: the row goes at the end under the next id. */
  method InsertProduct(db: Store, p: Product)
    requires p.id == db.products.nextId
    modifies db
    ensures db.products == Table(old(db.products.rows) + [p], old(db.products.nextId) + 1)
    ensures db.envelopes == old(db.envelopes) && db.transactions == old(db.transactions) && db.systemState == old(db.systemState)
    ensures old(db.Valid()) ==> db.Valid()
  {
    if db.Valid() {
      AppendKeepsProductIds(db.products, p);
    }
    db.products := Table(db.products.rows + [p], db.products.nextId + 1);
  }

  /** Appending a row under the next id keeps the ids distinct and below the next id. */
  lemma AppendKeepsProductIds(t: Table<Product>, p: Product)
    requires ProductIdsValid(t) && p.id == t.nextId
    ensures ProductIdsValid(Table(t.rows + [p], t.nextId + 1))
  {
  }

  /**
   * A product just created is found by its trimmed name, which is never
   * empty; it is the row found unless an older active product has that name.
   */
  lemma CreatedIsFound(t: Table<Product>, name: string, price: F64, envelopeId: nat)
    requires CheckProduct(name, price).None?
    ensures var rows := t.rows + [Product(t.nextId, Trim(name), price.r, envelopeId, false)];
      && ProductByName(rows, Trim(name)).Some?
      && Trim(name) != []
      && ((forall p :: p in t.rows ==> p.name != Trim(name) || p.isDeleted) ==>
            ProductByName(rows, Trim(name)) == Some(rows[|t.rows|]))
  {
    TrimEmptyIffBlank(name);
    var rows := t.rows + [Product(t.nextId, Trim(name), price.r, envelopeId, false)];
    var f := FirstIndex(rows, (p: Product) => p.name == Trim(name) && !p.isDeleted);
    assert rows[|t.rows|].name == Trim(name) && !rows[|t.rows|].isDeleted;
    assert f.Some?;
  }

  // ----- update -----

  /** The checks of update_product, in order: the shared checks, then an id with no row or a soft-deleted row. */
  function UpdateRefusal(rows: seq<Product>, id: nat, name: string, price: F64): (r: Option<Error>)
    ensures r.None? <==> CheckProduct(name, price).None? && ProductById(rows, id).Some? && !ProductById(rows, id).value.isDeleted
    ensures CheckProduct(name, price).Some? ==> r == CheckProduct(name, price)
    ensures CheckProduct(name, price).None? && r.Some? ==> r.value == ProductNotFound(IdText(id))
  {
    if CheckProduct(name, price).Some? then CheckProduct(name, price)
    else
      match ProductById(rows, id)
      case None => Some(ProductNotFound(IdText(id)))
      case Some(p) => if p.isDeleted then Some(ProductNotFound(IdText(id))) else None
  }

  /** `UPDATE products SET name = ?, price = ? WHERE id = ?` */
  function Revise(rows: seq<Product>, id: nat, name: string, price: real): (r: seq<Product>)
    ensures |r| == |rows|
    ensures forall i :: 0 <= i < |rows| ==> r[i] == if rows[i].id == id then rows[i].(name := name, price := price) else rows[i]
  {
    seq(|rows|, i requires 0 <= i < |rows| => if rows[i].id == id then rows[i].(name := name, price := price) else rows[i])
  }

  /** update_product: after the checks, the row gets the trimmed name and the new price. */
  method UpdateProduct(db: Store, id: nat, newName: string, newPrice: F64) returns (r: Result<Product, Error>)
    modifies db
    ensures r.Err? <==> UpdateRefusal(old(db.products.rows), id, newName, newPrice).Some?
    ensures r.Err? ==> r.error == UpdateRefusal(old(db.products.rows), id, newName, newPrice).value && db.products == old(db.products)
    ensures r.Ok? ==>
      && r.value == ProductById(old(db.products.rows), id).value.(name := Trim(newName), price := newPrice.r)
      && db.products == old(db.products).(rows := Revise(old(db.products.rows), id, Trim(newName), newPrice.r))
    ensures db.envelopes == old(db.envelopes) && db.transactions == old(db.transactions) && db.systemState == old(db.systemState)
    ensures old(db.Valid()) ==> db.Valid()
  {
    var refusal := UpdateRefusal(db.products.rows, id, newName, newPrice);
    if refusal.Some? {
      return Err(refusal.value);
    }
    var p := ProductById(db.products.rows, id).value;
    db.products := db.products.(rows := Revise(db.products.rows, id, Trim(newName), newPrice.r));
    return Ok(p.(name := Trim(newName), price := newPrice.r));
  }

  /** On a table with distinct ids, the row read back by id after an update carries the new name and price. */
  lemma UpdateReadBack(t: Table<Product>, id: nat, name: string, price: real)
    requires ProductIdsValid(t)
    requires ProductById(t.rows, id).Some?
    ensures ProductById(Revise(t.rows, id, name, price), id) == Some(ProductById(t.rows, id).value.(name := name, price := price))
  {
    var r := Revise(t.rows, id, name, price);
    var f := FirstIndex(t.rows, (p: Product) => p.id == id);
    assert f.Some?;
    assert r[f.value].id == id;
    var g := FirstIndex(r, (p: Product) => p.id == id);
    assert g.Some? && g.value == f.value;
  }

  // ----- soft delete -----

  /** The check of delete_product: an id with no row or a soft-deleted row. */
  function DeleteRefusal(rows: seq<Product>, id: nat): (r: Option<Error>)
    ensures r.None? <==> ProductById(rows, id).Some? && !ProductById(rows, id).value.isDeleted
    ensures r.Some? ==> r.value == ProductNotFound(IdText(id))
  {
    match ProductById(rows, id)
    case None => Some(ProductNotFound(IdText(id)))
    case Some(p) => if p.isDeleted then Some(ProductNotFound(IdText(id))) else None
  }

  /** `UPDATE products SET is_deleted = true WHERE id = ?` */
  function MarkDeleted(rows: seq<Product>, id: nat): (r: seq<Product>)
    ensures |r| == |rows|
    ensures forall i :: 0 <= i < |rows| ==> r[i] == if rows[i].id == id then rows[i].(isDeleted := true) else rows[i]
  {
    seq(|rows|, i requires 0 <= i < |rows| => if rows[i].id == id then rows[i].(isDeleted := true) else rows[i])
  }

  /** delete_product: an active product is marked deleted; its row stays, for the transaction history. */
  method DeleteProduct(db: Store, id: nat) returns (r: Result<Product, Error>)
    modifies db
    ensures r.Err? <==> DeleteRefusal(old(db.products.rows), id).Some?
    ensures r.Err? ==> r.error == DeleteRefusal(old(db.products.rows), id).value && db.products == old(db.products)
    ensures r.Ok? ==>
      && r.value == ProductById(old(db.products.rows), id).value.(isDeleted := true)
      && db.products == old(db.products).(rows := MarkDeleted(old(db.products.rows), id))
    ensures db.envelopes == old(db.envelopes) && db.transactions == old(db.transactions) && db.systemState == old(db.systemState)
    ensures old(db.Valid()) ==> db.Valid()
  {
    var refusal := DeleteRefusal(db.products.rows, id);
    if refusal.Some? {
      return Err(refusal.value);
    }
    var p := ProductById(db.products.rows, id).value;
    db.products := db.products.(rows := MarkDeleted(db.products.rows, id));
    return Ok(p.(isDeleted := true));
  }

  /**
   * After a delete the product is gone from the active list and from lookups
   * by name, a second delete is refused, and the row count is unchanged.
   */
  lemma DeleteHides(rows: seq<Product>, id: nat, name: string)
    requires DeleteRefusal(rows, id).None?
    ensures var after := MarkDeleted(rows, id);
      && |after| == |rows|
      && (forall p :: p in ActiveProducts(after) ==> p.id != id)
      && (ProductByName(after, name).Some? ==> ProductByName(after, name).value.id != id)
      && DeleteRefusal(after, id) == Some(ProductNotFound(IdText(id)))
  {
    var after := MarkDeleted(rows, id);
    forall p | p in after && p.id == id ensures p.isDeleted {
      var i :| 0 <= i < |after| && after[i] == p;
    }
    var f := FirstIndex(rows, (p: Product) => p.id == id);
    assert after[f.value].id == id;
    assert ProductById(after, id).Some?;
  }
}
