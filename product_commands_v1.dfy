/**
 * The `/product` handlers of the rusqlite generation
 * (src/commands/product.rs): add and update from a total price and a
 * quantity, use a product against the right envelope, and delete by name.
 */
module ProductCommandsV1 {
  import opened Wrappers
  import opened Text
  import opened Sorting
  import opened Calendar
  import opened StoreV1
  import opened EnvelopesV1
  import opened ProductsV1
  import TransactionCommandsV1

  /** Why a product handler stops before writing. */
  datatype ProductRefusal =
    | EmptyName
    | NegativeTotal
    | NonPositiveQuantity
    | NoSuchEnvelope
    | DuplicateName
    | UnknownProduct
    | TemplateMissing
    | NoOwnInstance
    | NotOwnIndividual

  // ----- /product add and /product update -----

  /**
   * The price checks of product_add, in order (an empty name, a negative
   * total, a quantity not above 0; the quantity defaults to 1), and the
   * unit price total / quantity.
   */
  function CheckAddPrice(name: string, total: real, quantity: Option<real>): (r: Result<real, ProductRefusal>)
    ensures r == Err(EmptyName) <==> IsBlank(name)
    ensures r == Err(NegativeTotal) <==> !IsBlank(name) && total < 0.0
    ensures r == Err(NonPositiveQuantity) <==> !IsBlank(name) && total >= 0.0 && quantity.UnwrapOr(1.0) <= 0.0
    ensures r.Ok? ==> r.value >= 0.0 && r.value * quantity.UnwrapOr(1.0) == total
  {
    TrimEmptyIffBlank(name);
    var q := quantity.UnwrapOr(1.0);
    if Trim(name) == [] then Err(EmptyName)
    else if total < 0.0 then Err(NegativeTotal)
    else if q <= 0.0 then Err(NonPositiveQuantity)
    else UnitPrice(total, q)
  }

  /** The unit price: never negative, and times the quantity it gives back the total. */
  function UnitPrice(total: real, quantity: real): (r: Result<real, ProductRefusal>)
    requires total >= 0.0 && quantity > 0.0
    ensures r.Ok? && r.value >= 0.0 && r.value * quantity == total
  {
    var unit := total / quantity;
    assert unit * quantity == total;
    Ok(unit)
  }

  /** The checks of product_update: the quantity first, then the total. */
  function CheckUpdatePrice(total: real, quantity: Option<real>): (r: Result<real, ProductRefusal>)
    ensures r == Err(NonPositiveQuantity) <==> quantity.UnwrapOr(1.0) <= 0.0
    ensures r == Err(NegativeTotal) <==> quantity.UnwrapOr(1.0) > 0.0 && total < 0.0
    ensures r.Ok? ==> r.value >= 0.0 && r.value * quantity.UnwrapOr(1.0) == total
  {
    var q := quantity.UnwrapOr(1.0);
    if q <= 0.0 then Err(NonPositiveQuantity)
    else if total < 0.0 then Err(NegativeTotal)
    else UnitPrice(total, q)
  }

  /** What a product handler answers. */
  datatype ProductReply =
    | Refused(reason: ProductRefusal)
    | Added(id: nat, unitPrice: real)
    | PriceUpdated(unitPrice: real)
    | NotUpdated
    | Used(envelopeId: nat, totalCost: real, transactionId: nat)
    | Deleted
    | NotFound

  /**
   * product_add: the checks, the envelope the author can use by that name,
   * then add_product with the unit price. A taken name is answered, not
   * propagated; add_product's other refusals cannot occur, since the unit
   * price is not negative and the envelope exists.
   */
  method ProductAdd(db: Store, name: string, total: real, envelopeName: string, quantity: Option<real>,
                    description: Option<string>, author: UserId)
    returns (r: ProductReply)
    modifies db
    ensures CheckAddPrice(name, total, quantity).Err? ==>
      r == Refused(CheckAddPrice(name, total, quantity).error) && db.products == old(db.products)
    ensures CheckAddPrice(name, total, quantity).Ok? && UserOrShared(old(db.envelopes.rows), envelopeName, author).None? ==>
      r == Refused(NoSuchEnvelope) && db.products == old(db.products)
    ensures CheckAddPrice(name, total, quantity).Ok? && UserOrShared(old(db.envelopes.rows), envelopeName, author).Some? ==>
      var unit, e := CheckAddPrice(name, total, quantity).value, UserOrShared(old(db.envelopes.rows), envelopeName, author).value;
      && ((exists i :: 0 <= i < |old(db.products.rows)| && old(db.products.rows)[i].name == name) ==>
            r == Refused(DuplicateName) && db.products == old(db.products))
      && ((forall i :: 0 <= i < |old(db.products.rows)| ==> old(db.products.rows)[i].name != name) ==>
            && r == Added(old(db.products.nextId), unit)
            && db.products == Table(old(db.products.rows) + [Product(old(db.products.nextId), name, unit, e.id, description)], old(db.products.nextId) + 1))
    ensures db.envelopes == old(db.envelopes) && db.transactions == old(db.transactions) && db.systemState == old(db.systemState)
    ensures old(db.Valid()) ==> db.Valid()
  {
    var unit := CheckAddPrice(name, total, quantity);
    if unit.Err? {
      return Refused(unit.error);
    }
    var found := UserOrShared(db.envelopes.rows, envelopeName, author);
    if found.None? {
      return Refused(NoSuchEnvelope);
    }
    var e := found.value;
    assert HasEnvelopeId(db.envelopes.rows, e.id) by {
      var i :| 0 <= i < |db.envelopes.rows| && db.envelopes.rows[i] == e;
    }
    var added := AddProduct(db, name, unit.value, e.id, description);
    if added.Err? {
      return Refused(DuplicateName);
    }
    return Added(added.value, unit.value);
  }

  /**
   * product_update: the checks, the product by name, then
   * update_product_price with the new unit price.
   */
  method ProductUpdate(db: Store, name: string, total: real, quantity: Option<real>) returns (r: ProductReply)
    modifies db
    ensures CheckUpdatePrice(total, quantity).Err? ==>
      r == Refused(CheckUpdatePrice(total, quantity).error) && db.products == old(db.products)
    ensures CheckUpdatePrice(total, quantity).Ok? && ProductByName(old(db.products.rows), old(db.envelopes.rows), name).None? ==>
      r == Refused(UnknownProduct) && db.products == old(db.products)
    ensures CheckUpdatePrice(total, quantity).Ok? && ProductByName(old(db.products.rows), old(db.envelopes.rows), name).Some? ==>
      var unit, p := CheckUpdatePrice(total, quantity).value, ProductByName(old(db.products.rows), old(db.envelopes.rows), name).value;
      && db.products == old(db.products).(rows := WithPrice(old(db.products.rows), p.id, unit))
      && r == (if Count(old(db.products.rows), (q: Product) => q.id == p.id) > 0 then PriceUpdated(unit) else NotUpdated)
    ensures db.envelopes == old(db.envelopes) && db.transactions == old(db.transactions) && db.systemState == old(db.systemState)
    ensures old(db.Valid()) ==> db.Valid()
  {
    var unit := CheckUpdatePrice(total, quantity);
    if unit.Err? {
      return Refused(unit.error);
    }
    var p := ProductByName(db.products.rows, db.envelopes.rows, name);
    if p.None? {
      return Refused(UnknownProduct);
    }
    var updated := UpdateProductPrice(db, p.value.id, unit.value);
    assert updated.Ok?;
    if updated.value > 0 {
      return PriceUpdated(unit.value);
    }
    return NotUpdated;
  }

  /** A product that resolves by name is always there to update: the price write reaches it. */
  lemma UpdateReachesProduct(t: Table<Product>, envelopes: seq<Envelope>, name: string)
    requires ProductByName(t.rows, envelopes, name).Some?
    ensures Count(t.rows, (q: Product) => q.id == ProductByName(t.rows, envelopes, name).value.id) > 0
  {
    var v := ProductByName(t.rows, envelopes, name).value;
    var p :| p in t.rows && Join(p, envelopes) == Some(v);
    CountMember(t.rows, (q: Product) => q.id == v.id, p);
  }

  lemma {:induction false} CountMember(rows: seq<Product>, f: Product -> bool, p: Product)
    requires p in rows && f(p)
    ensures Count(rows, f) > 0
  {
    if rows[0] != p {
      assert p in rows[1..];
      CountMember(rows[1..], f, p);
    }
  }

  // ----- /product use_product -----

  /**
   * The lookup chain of use_product: a quantity above 0 (1 by default), the
   * product by name, its active template envelope, and for an individual
   * template the author's own individual instance of that name; a shared
   * template is used as it is.
   */
  function UsePlan(products: seq<Product>, envelopes: seq<Envelope>, name: string, quantity: Option<int>, author: UserId)
    : (r: Result<(Envelope, ProductView), ProductRefusal>)
    ensures r.Ok? ==> quantity.UnwrapOr(1) > 0 && ProductByName(products, envelopes, name) == Some(r.value.1)
    ensures r.Ok? ==> r.value.0 in envelopes && !r.value.0.isDeleted
  {
    if quantity.UnwrapOr(1) <= 0 then Err(NonPositiveQuantity)
    else
      match ProductByName(products, envelopes, name)
      case None => Err(UnknownProduct)
      case Some(p) =>
        match ActiveById(envelopes, p.envelopeId)
        case None => Err(TemplateMissing)
        case Some(template) =>
          if !template.isIndividual then Ok((template, p))
          else
            match UserOrShared(envelopes, template.name, author)
            case None => Err(NoOwnInstance)
            case Some(own) =>
              if !own.isIndividual || own.userId != Some(author) then Err(NotOwnIndividual)
              else Ok((own, p))
  }

  /**
   * The envelope charged is the right one: the template itself when it is
   * shared, otherwise an individual envelope of the author with the
   * template's name; and when the author has that envelope it is found.
   */
  lemma UsePlanChargesRightEnvelope(t: Table<Envelope>, products: seq<Product>, name: string, quantity: Option<int>, author: UserId)
    requires EnvelopesValid(t)
    ensures var r := UsePlan(products, t.rows, name, quantity, author);
      r.Ok? ==>
        var template := ActiveById(t.rows, r.value.1.envelopeId).value;
        && (!template.isIndividual ==> r.value.0 == template)
        && (template.isIndividual ==>
              r.value.0.isIndividual && r.value.0.userId == Some(author) && r.value.0.name == template.name)
    ensures var p := ProductByName(products, t.rows, name);
      quantity.UnwrapOr(1) > 0 && p.Some? && ActiveById(t.rows, p.value.envelopeId).Some?
      && ActiveWithKey(t.rows, ActiveById(t.rows, p.value.envelopeId).value.name, Some(author)) ==>
        UsePlan(products, t.rows, name, quantity, author).Ok?
  {
    UsePlanCharged(t, products, name, quantity, author);
    forall e | e in t.rows ensures e.isIndividual <==> e.userId.Some? {
      var i :| 0 <= i < |t.rows| && t.rows[i] == e;
    }
    UsePlanFindsOwn(t.rows, products, name, quantity, author);
  }

  lemma UsePlanCharged(t: Table<Envelope>, products: seq<Product>, name: string, quantity: Option<int>, author: UserId)
    ensures var r := UsePlan(products, t.rows, name, quantity, author);
      r.Ok? ==>
        var template := ActiveById(t.rows, r.value.1.envelopeId).value;
        && (!template.isIndividual ==> r.value.0 == template)
        && (template.isIndividual ==>
              r.value.0.isIndividual && r.value.0.userId == Some(author) && r.value.0.name == template.name)
  {
    var r := UsePlan(products, t.rows, name, quantity, author);
    if r.Ok? {
      var p := ProductByName(products, t.rows, name).value;
      var template := ActiveById(t.rows, p.envelopeId).value;
      if template.isIndividual {
        assert r.value.0 == UserOrShared(t.rows, template.name, author).value;
      } else {
        assert r.value.0 == template;
      }
    }
  }

  lemma UsePlanFindsOwn(rows: seq<Envelope>, products: seq<Product>, name: string, quantity: Option<int>, author: UserId)
    requires forall e :: e in rows ==> (e.isIndividual <==> e.userId.Some?)
    ensures var p := ProductByName(products, rows, name);
      quantity.UnwrapOr(1) > 0 && p.Some? && ActiveById(rows, p.value.envelopeId).Some?
      && ActiveWithKey(rows, ActiveById(rows, p.value.envelopeId).value.name, Some(author)) ==>
        UsePlan(products, rows, name, quantity, author).Ok?
  {
    var p := ProductByName(products, rows, name);
    if quantity.UnwrapOr(1) > 0 && p.Some? && ActiveById(rows, p.value.envelopeId).Some? {
      var template := ActiveById(rows, p.value.envelopeId).value;
      if template.isIndividual && ActiveWithKey(rows, template.name, Some(author)) {
        var own := UserOrShared(rows, template.name, author).value;
        assert own.isIndividual && own.userId == Some(author);
        assert UsePlan(products, rows, name, quantity, author) == Ok((own, p.value));
      }
    }
  }

  /** total_cost: the unit price times the quantity (1 by default). */
  function UseCost(p: ProductView, quantity: Option<int>): real
  {
    p.price * quantity.UnwrapOr(1) as real
  }

  /** The charged envelope's new balance; an overdraft is allowed. */
  function BalanceAfterUse(e: Envelope, p: ProductView, quantity: Option<int>): (r: real)
    ensures r + UseCost(p, quantity) == e.balance
  {
    e.balance - UseCost(p, quantity)
  }

  /** "Product: {name} (x{quantity})", then " - {description}" when the product has one. */
  function UseDescription(p: ProductView, quantity: Option<int>): string
  {
    var q := quantity.UnwrapOr(1);
    "Product: " + p.name + " (x" + (if q < 0 then "-" + Pad(-q, 0) else Pad(q, 0)) + ")"
      + (match p.description case Some(d) => " - " + d case None => "")
  }

  /**
   * use_product: the lookup chain, then balance := balance - price x
   * quantity (an overdraft only logs a warning) and one `spend` row of
   * that positive cost.
   */
  method UseProduct(db: Store, name: string, quantity: Option<int>, author: UserId, messageId: string, now: Date)
    returns (r: ProductReply)
    modifies db
    ensures UsePlan(old(db.products.rows), old(db.envelopes.rows), name, quantity, author).Err? ==>
      && r == Refused(UsePlan(old(db.products.rows), old(db.envelopes.rows), name, quantity, author).error)
      && db.envelopes == old(db.envelopes) && db.transactions == old(db.transactions)
    ensures UsePlan(old(db.products.rows), old(db.envelopes.rows), name, quantity, author).Ok? ==>
      var e := UsePlan(old(db.products.rows), old(db.envelopes.rows), name, quantity, author).value.0;
      var p := UsePlan(old(db.products.rows), old(db.envelopes.rows), name, quantity, author).value.1;
      var cost := UseCost(p, quantity);
      && r == Used(e.id, cost, old(db.transactions.nextId))
      && db.envelopes == old(db.envelopes).(rows := WithBalance(old(db.envelopes.rows), e.id, BalanceAfterUse(e, p, quantity)))
      && db.transactions == Table(old(db.transactions.rows) + [Transaction(old(db.transactions.nextId), e.id, cost,
                                  UseDescription(p, quantity), now, author, Some(messageId), "spend")], old(db.transactions.nextId) + 1)
    ensures db.products == old(db.products) && db.systemState == old(db.systemState)
    ensures old(db.Valid()) ==> db.Valid()
  {
    var plan := UsePlan(db.products.rows, db.envelopes.rows, name, quantity, author);
    if plan.Err? {
      return Refused(plan.error);
    }
    var e, p := plan.value.0, plan.value.1;
    var cost := UseCost(p, quantity);
    var newBalance := BalanceAfterUse(e, p, quantity);
    var id := TransactionCommandsV1.WriteAndLog(db, e, newBalance, cost, UseDescription(p, quantity), author, messageId, "spend", now);
    return Used(e.id, cost, id);
  }

  // ----- /product delete -----

  /** product_delete: "deleted" when a row went, "not found" when none did. */
  method ProductDelete(db: Store, name: string) returns (r: ProductReply)
    modifies db
    ensures r == Deleted || r == NotFound
    ensures r == Deleted <==> Count(old(db.products.rows), NamedBy(name)) > 0
    ensures ProductsValid(old(db.products), old(db.envelopes.rows)) ==>
      (r == Deleted <==> exists i :: 0 <= i < |old(db.products.rows)| && old(db.products.rows)[i].name == name)
    ensures db.products == old(db.products).(rows := Reject(old(db.products.rows), NamedBy(name)))
    ensures db.envelopes == old(db.envelopes) && db.transactions == old(db.transactions) && db.systemState == old(db.systemState)
    ensures old(db.Valid()) ==> db.Valid()
  {
    if ProductsValid(db.products, db.envelopes.rows) {
      DeleteByNameRemovesOne(db.products, db.envelopes.rows, name);
    }
    var deleted := DeleteProductByName(db, name);
    if deleted > 0 {
      return Deleted;
    }
    return NotFound;
  }
}
