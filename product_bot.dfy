/**
 * The product commands of the sea-orm generation (src/bot/commands/product.rs):
 * the price checks and unit price of product_add and product_update,
 * product_delete, use_product with its envelope resolution, and the bar of
 * the usage report.
 */
module ProductBot {
  import opened Wrappers
  import opened Text
  import opened Sorting
  import opened Floats
  import opened StoreV2
  import opened EnvelopeCore
  import opened TransactionCore
  import opened ProductCore
  import opened ReportCore

  /** The reply a command chooses; refusals are replies, not errors. */
  datatype ProductReply =
    | EmptyName
    | InvalidTotal
    | NegativeTotal
    | InvalidQuantity
    | NonPositiveQuantity
    | NoEnvelope
    | NotFound
    | Added(product: Product)
    | PriceUpdated(product: Product)
    | Removed(product: Product)
    | Used(transaction: Transaction)

  // ----- prices -----

  /**
   * The price checks of product_add and product_update, in order: a total
   * that is NaN or infinite, a negative total, a quantity (default 1) that is
   * NaN or infinite, a quantity that is not positive.
   */
  function PriceCheck(total: F64, quantity: Option<F64>): (r: Option<ProductReply>)
    ensures r.None? <==> IsFinite(total) && total.r >= 0.0 && IsFinite(quantity.UnwrapOr(Num(1.0))) && quantity.UnwrapOr(Num(1.0)).r > 0.0
    ensures IsNanOrInfinite(total) ==> r == Some(InvalidTotal)
    ensures IsFinite(total) && total.r < 0.0 ==> r == Some(NegativeTotal)
    ensures IsFinite(total) && total.r >= 0.0 && IsNanOrInfinite(quantity.UnwrapOr(Num(1.0))) ==> r == Some(InvalidQuantity)
    ensures IsFinite(total) && total.r >= 0.0 && IsFinite(quantity.UnwrapOr(Num(1.0))) && quantity.UnwrapOr(Num(1.0)).r <= 0.0 ==>
      r == Some(NonPositiveQuantity)
  {
    var q := quantity.UnwrapOr(Num(1.0));
    if IsNanOrInfinite(total) then Some(InvalidTotal)
    else if total.r < 0.0 then Some(NegativeTotal)
    else if IsNanOrInfinite(q) then Some(InvalidQuantity)
    else if q.r <= 0.0 then Some(NonPositiveQuantity)
    else None
  }

  /** `total_price / quantity`: the unit price whose multiple by the quantity is the total. */
  function UnitPrice(total: real, quantity: real): (u: real)
    requires quantity > 0.0
    ensures u * quantity == total
    ensures total >= 0.0 ==> u >= 0.0
  {
    var u := total / quantity;
    ProductSign(u, quantity);
    u
  }

  /** A positive factor keeps the sign of the other one. */
  lemma ProductSign(x: real, y: real)
    requires y > 0.0
    ensures x * y >= 0.0 <==> x >= 0.0
    ensures x * y == 0.0 <==> x == 0.0
  {
    if x > 0.0 {
      assert x * y > 0.0 * y;
    } else if x < 0.0 {
      assert x * y < 0.0 * y;
    }
  }

  /** The unit price once the checks have passed. */
  function CheckedUnitPrice(total: F64, quantity: Option<F64>): (u: real)
    requires PriceCheck(total, quantity).None?
    ensures u >= 0.0 && u * quantity.UnwrapOr(Num(1.0)).r == total.r
  {
    UnitPrice(total.r, quantity.UnwrapOr(Num(1.0)).r)
  }

  /** 6.99 for one item, 12 for a dozen and 7.50 for three. */
  lemma UnitPriceExamples()
    ensures UnitPrice(6.99, 1.0) == 6.99
    ensures UnitPrice(12.0, 12.0) == 1.0
    ensures UnitPrice(7.5, 3.0) == 2.5
  {
  }

  // ----- product_add, product_update, product_delete -----

  /**
   * The envelope of product_add: the author's own envelope of that name,
   * else what get_envelope_by_name returned (`fallback`; that function is
   * not part of this model).
   */
  function ProductEnvelope(rows: seq<Envelope>, envelopeName: string, author: UserId,
                           fallback: Result<Option<Envelope>, Error>): Result<Option<Envelope>, Error>
  {
    match ByNameAndUser(rows, envelopeName, author)
    case Some(e) => Ok(Some(e))
    case None => fallback
  }

  /**
   * product_add: a blank name, then the price checks; then the envelope
   * (own first, else the fallback lookup); then the core creates the product
   * with the unit price, linked to that envelope.
   */
  method ProductAddCommand(db: Store, name: string, totalPrice: F64, envelopeName: string, quantity: Option<F64>,
                           author: UserId, fallback: Result<Option<Envelope>, Error>)
    returns (r: Result<ProductReply, Error>)
    modifies db
    ensures IsBlank(name) ==> r == Ok(EmptyName) && db.products == old(db.products)
    ensures !IsBlank(name) && PriceCheck(totalPrice, quantity).Some? ==>
      r == Ok(PriceCheck(totalPrice, quantity).value) && db.products == old(db.products)
    ensures !IsBlank(name) && PriceCheck(totalPrice, quantity).None? ==>
      var found := ProductEnvelope(old(db.envelopes.rows), envelopeName, author, fallback);
      && (found.Err? ==> r == Err(found.error) && db.products == old(db.products))
      && (found.Ok? && found.value.None? ==> r == Ok(NoEnvelope) && db.products == old(db.products))
      && (found.Ok? && found.value.Some? ==>
            && r.Ok? && r.value.Added?
            && r.value.product == Product(old(db.products.nextId), Trim(name), CheckedUnitPrice(totalPrice, quantity),
                                          found.value.value.id, false)
            && db.products == Table(old(db.products.rows) + [r.value.product], old(db.products.nextId) + 1))
    ensures db.envelopes == old(db.envelopes) && db.transactions == old(db.transactions) && db.systemState == old(db.systemState)
    ensures old(db.Valid()) ==> db.Valid()
  {
    TrimEmptyIffBlank(name);
    if IsBlank(name) {
      return Ok(EmptyName);
    }
    var refusal := PriceCheck(totalPrice, quantity);
    if refusal.Some? {
      return Ok(refusal.value);
    }
    var unit := CheckedUnitPrice(totalPrice, quantity);
    var found := ProductEnvelope(db.envelopes.rows, envelopeName, author, fallback);
    if found.Err? {
      return Err(found.error);
    }
    if found.value.None? {
      return Ok(NoEnvelope);
    }
    var created := CreateProduct(db, name, Num(unit), found.value.value.id);
    assert created.Ok?;
    return Ok(Added(created.value));
  }

  /**
   * product_update: the price checks, then the active product of that name;
   * the core then writes the unit price, passing the product's own name back.
   */
  method ProductUpdateCommand(db: Store, name: string, totalPrice: F64, quantity: Option<F64>)
    returns (r: Result<ProductReply, Error>)
    modifies db
    ensures PriceCheck(totalPrice, quantity).Some? ==> r == Ok(PriceCheck(totalPrice, quantity).value) && db.products == old(db.products)
    ensures PriceCheck(totalPrice, quantity).None? && ProductByName(old(db.products.rows), name).None? ==>
      r == Ok(NotFound) && db.products == old(db.products)
    ensures PriceCheck(totalPrice, quantity).None? && ProductByName(old(db.products.rows), name).Some? ==>
      var p, unit := ProductByName(old(db.products.rows), name).value, CheckedUnitPrice(totalPrice, quantity);
      var refusal := UpdateRefusal(old(db.products.rows), p.id, p.name, Num(unit));
      && (refusal.Some? ==> r == Err(refusal.value) && db.products == old(db.products))
      && (refusal.None? ==>
            && r.Ok? && r.value.PriceUpdated?
            && r.value.product == ProductById(old(db.products.rows), p.id).value.(name := Trim(p.name), price := unit)
            && db.products == old(db.products).(rows := Revise(old(db.products.rows), p.id, Trim(p.name), unit)))
    ensures db.envelopes == old(db.envelopes) && db.transactions == old(db.transactions) && db.systemState == old(db.systemState)
    ensures old(db.Valid()) ==> db.Valid()
  {
    var refusal := PriceCheck(totalPrice, quantity);
    if refusal.Some? {
      return Ok(refusal.value);
    }
    var unit := CheckedUnitPrice(totalPrice, quantity);
    var found := ProductByName(db.products.rows, name);
    if found.None? {
      return Ok(NotFound);
    }
    var updated := UpdateProduct(db, found.value.id, found.value.name, Num(unit));
    if updated.Err? {
      return Err(updated.error);
    }
    return Ok(PriceUpdated(updated.value));
  }

  /** In a table with distinct ids, the row found by id is the row at that position. */
  lemma ProductByIdAt(rows: seq<Product>, i: nat)
    requires forall i, j :: 0 <= i < j < |rows| ==> rows[i].id != rows[j].id
    requires i < |rows|
    ensures ProductById(rows, rows[i].id) == Some(rows[i])
  {
    var f := FirstIndex(rows, (p: Product) => p.id == rows[i].id);
    assert f.Some?;
  }

  /**
   * On a table with distinct ids, product_update leaves a trimmed product
   * name as it was and changes only the price.
   */
  lemma ProductUpdateKeepsName(t: Table<Product>, name: string, unit: real)
    requires ProductIdsValid(t)
    requires ProductByName(t.rows, name).Some? && Trim(name) == name
    ensures var p := ProductByName(t.rows, name).value;
      ProductById(Revise(t.rows, p.id, Trim(p.name), unit), p.id) == Some(p.(price := unit))
  {
    var p := ProductByName(t.rows, name).value;
    var i :| 0 <= i < |t.rows| && t.rows[i] == p;
    ProductByIdAt(t.rows, i);
    UpdateReadBack(t, p.id, Trim(p.name), unit);
  }

  /** product_delete: the active product of that name is soft-deleted by the core. */
  method ProductDeleteCommand(db: Store, name: string) returns (r: Result<ProductReply, Error>)
    modifies db
    ensures ProductByName(old(db.products.rows), name).None? ==> r == Ok(NotFound) && db.products == old(db.products)
    ensures ProductByName(old(db.products.rows), name).Some? ==>
      var p := ProductByName(old(db.products.rows), name).value;
      var refusal := ProductCore.DeleteRefusal(old(db.products.rows), p.id);
      && (refusal.Some? ==> r == Err(refusal.value) && db.products == old(db.products))
      && (refusal.None? ==>
            && r == Ok(Removed(ProductById(old(db.products.rows), p.id).value.(isDeleted := true)))
            && db.products == old(db.products).(rows := MarkDeleted(old(db.products.rows), p.id)))
    ensures db.envelopes == old(db.envelopes) && db.transactions == old(db.transactions) && db.systemState == old(db.systemState)
    ensures old(db.Valid()) ==> db.Valid()
  {
    var found := ProductByName(db.products.rows, name);
    if found.None? {
      return Ok(NotFound);
    }
    var deleted := DeleteProduct(db, found.value.id);
    if deleted.Err? {
      return Err(deleted.error);
    }
    return Ok(Removed(deleted.value));
  }

  // ----- use_product -----

  /**
   * resolve_product_envelope: the product's envelope by id (a soft-deleted
   * one too); a shared one is used as it is, an individual one stands for
   * the target user's own envelope of the same name.
   */
  function ProductTarget(rows: seq<Envelope>, p: Product, user: UserId): (r: Result<Envelope, Error>)
    ensures ById(rows, p.envelopeId).None? ==> r == Err(EnvelopeNotFound("ID " + IdText(p.envelopeId)))
    ensures ById(rows, p.envelopeId).Some? && !ById(rows, p.envelopeId).value.isIndividual ==>
      r == Ok(ById(rows, p.envelopeId).value)
    ensures ById(rows, p.envelopeId).Some? && ById(rows, p.envelopeId).value.isIndividual ==>
      var template := ById(rows, p.envelopeId).value;
      && (r.Ok? <==> exists e :: e in rows && IsOwnedNamed(e, template.name, user))
      && (r.Ok? ==> r.value in rows && IsOwnedNamed(r.value, template.name, user))
      && (r.Err? ==> r.error == EnvelopeNotFound(template.name))
  {
    match ById(rows, p.envelopeId)
    case None => Err(EnvelopeNotFound("ID " + IdText(p.envelopeId)))
    case Some(template) =>
      if !template.isIndividual then Ok(template)
      else
        match ByNameAndUser(rows, template.name, user)
        case Some(own) => if own.userId == Some(user) then Ok(own) else Err(EnvelopeNotFound(template.name))
        case None => Err(EnvelopeNotFound(template.name))
  }

  /** `prod.price * (quantity as f64)` */
  function TotalCost(price: real, quantity: nat): (c: real)
    ensures price >= 0.0 ==> c >= 0.0
    ensures c == 0.0 <==> price == 0.0 || quantity == 0
  {
    var c := price * quantity as real;
    if quantity > 0 then
      ProductSign(price, quantity as real);
      c
    else
      c
  }

  /** "Product: {name} (x{q})", followed by " - recorded by {author}" when the expense is for another user. */
  function UseDescription(productName: string, quantity: nat, user: Option<UserId>, author: UserId): string
  {
    "Product: " + productName + " (x" + IdText(quantity) + ")"
    + (if user.Some? then " - recorded by " + author else "")
  }

  /**
   * use_product: a quantity (default 1) that is not positive, then an
   * unknown product, are replies; the envelope is resolved for the target
   * user (default the author); then the core records `-(price * quantity)`
   * as a "use_product" transaction, refusing as it does for any spend.
   */
  method UseProductCommand(db: Store, name: string, quantity: Option<int>, user: Option<UserId>, author: UserId,
                           messageId: string, now: int)
    returns (r: Result<ProductReply, Error>)
    modifies db
    ensures quantity.UnwrapOr(1) <= 0 ==>
      r == Ok(NonPositiveQuantity) && db.envelopes == old(db.envelopes) && db.transactions == old(db.transactions)
    ensures quantity.UnwrapOr(1) > 0 && ProductByName(old(db.products.rows), name).None? ==>
      r == Ok(NotFound) && db.envelopes == old(db.envelopes) && db.transactions == old(db.transactions)
    ensures quantity.UnwrapOr(1) > 0 && ProductByName(old(db.products.rows), name).Some? ==>
      var p := ProductByName(old(db.products.rows), name).value;
      var target := ProductTarget(old(db.envelopes.rows), p, user.UnwrapOr(author));
      && (target.Err? ==> r == Err(target.error) && db.envelopes == old(db.envelopes) && db.transactions == old(db.transactions))
      && (target.Ok? ==>
            ChargeEffect(old(db.envelopes), old(db.transactions), db.envelopes, db.transactions, r, target.value.id,
                         -TotalCost(p.price, quantity.UnwrapOr(1) as nat),
                         UseDescription(p.name, quantity.UnwrapOr(1) as nat, user, author),
                         user.UnwrapOr(author), Some(messageId), now))
    ensures db.products == old(db.products) && db.systemState == old(db.systemState)
    ensures old(db.Valid()) ==> db.Valid()
  {
    var q := quantity.UnwrapOr(1);
    if q <= 0 {
      return Ok(NonPositiveQuantity);
    }
    var found := ProductByName(db.products.rows, name);
    if found.None? {
      return Ok(NotFound);
    }
    var p := found.value;
    var targetUser := user.UnwrapOr(author);
    var target := ProductTarget(db.envelopes.rows, p, targetUser);
    if target.Err? {
      return Err(target.error);
    }
    var cost := TotalCost(p.price, q as nat);
    var recorded := CreateTransaction(db, target.value.id, Num(-cost), UseDescription(p.name, q as nat, user, author),
                                      targetUser, Some(messageId), "use_product", now);
    if recorded.Err? {
      return Err(recorded.error);
    }
    return Ok(Used(recorded.value));
  }

  /**
   * What recording a charge of `amount` to envelope `id` did: refused by the
   * core with nothing written, or the row appended and the balance moved.
   */
  predicate ChargeEffect(envelopes0: Table<Envelope>, log0: Table<Transaction>, envelopes: Table<Envelope>,
                         log: Table<Transaction>, r: Result<ProductReply, Error>, id: nat, amount: real,
                         description: string, user: UserId, messageId: Option<string>, now: int)
  {
    var refusal := TransactionCore.CreateRefusal(envelopes0.rows, id, Num(amount));
    && (refusal.Some? ==> r == Err(refusal.value) && envelopes == envelopes0 && log == log0)
    && (refusal.None? ==>
          && r == Ok(Used(Transaction(log0.nextId, id, amount, description, now, user, messageId, "use_product")))
          && log == Table(log0.rows + [r.value.transaction], log0.nextId + 1)
          && envelopes == envelopes0.(rows := AddToBalance(envelopes0.rows, id, amount)))
  }

  /**
   * The overdraft warning of use_product (`balance < total_cost`) fires
   * exactly when the core then refuses the charge for insufficient funds:
   * a warned overdraft is never recorded.
   */
  lemma OverdraftWarningMeansRefusal(rows: seq<Envelope>, target: Envelope, cost: real)
    requires LiveById(rows, target.id) == Some(target) && cost > 0.0
    ensures target.balance < cost <==>
      TransactionCore.CreateRefusal(rows, target.id, Num(-cost)) == Some(InsufficientFunds(target.balance, cost))
    ensures target.balance >= cost ==> TransactionCore.CreateRefusal(rows, target.id, Num(-cost)).None?
  {
  }

  /** A product with price 0 can be added, but using it is refused: the charge is zero. */
  lemma FreeProductRefused(rows: seq<Envelope>, id: nat, quantity: nat)
    ensures TransactionCore.CreateRefusal(rows, id, Num(-TotalCost(0.0, quantity))) == Some(InvalidAmount(Num(0.0)))
    ensures PriceCheck(Num(0.0), None).None? && CheckedUnitPrice(Num(0.0), None) == 0.0
  {
  }

  // ----- the usage report's bar -----

  /** The bar of generate_progress_bar: no bar without an allocation, else ten cells and the clamped percentage. */
  datatype UsageBar = NoAllocation | Bar(filled: nat, empty: nat, percent: real)

  /**
   * generate_progress_bar: "[No allocation]" for an allocation of 0 or
   * less; otherwise the balance's percentage clamped to [0, 100], filled
   * cells its tenth rounded half away from zero, and empty cells the rest of ten.
   */
  function ProgressBarCells(balance: real, allocation: real): (r: UsageBar)
    ensures r.NoAllocation? <==> allocation <= 0.0
    ensures r.Bar? ==>
      && r.filled + r.empty == 10
      && 0.0 <= r.percent <= 100.0
      && r.percent == Clamp(CalculateProgress(balance, allocation), 0.0, 100.0)
      && r.filled as real - 0.5 <= r.percent / 10.0 < r.filled as real + 0.5
  {
    if allocation <= 0.0 then NoAllocation
    else
      var percent := Clamp(balance / allocation * 100.0, 0.0, 100.0);
      var filled := RoundHalfAway(percent / 10.0);
      assert filled <= 10 by {
        RoundHalfAwayMonotonic(percent / 10.0, 10.0);
        RoundHalfAwayUnique(10.0, 10);
      }
      Bar(filled, 10 - filled, percent)
  }

  /** The usage bar fills as many cells as the report's bar of length 10 for the same balance. */
  lemma UsageBarAgreesWithReport(balance: real, allocation: real)
    requires allocation > 0.0
    ensures var b := ProgressBarCells(balance, allocation);
      b.Bar? && (b.filled, b.empty) == BarCounts(CalculateProgress(balance, allocation), Some(10))
  {
    var b := ProgressBarCells(balance, allocation);
    var share := FilledShare(CalculateProgress(balance, allocation), 10);
    assert share == b.percent / 10.0;
    RoundHalfAwayUnique(share, b.filled);
  }
}
