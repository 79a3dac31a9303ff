/** Properties of the three cart operations: what a committed cart holds
    compared with the old one, the stock ceiling, the failure paths, and
    preservation of the cart invariant. */
module CartLaws {
  import opened Wrappers
  import opened Carts
  import opened CartEngine

  // ---------------------------------------------------------------- add

  /** Adding a product that is not in the cart, with stock for one unit and
      a successful catalog fetch, appends one entry with amount 1 for that
      product and leaves every existing entry where and as it was. */
  lemma AddNewAppends(cart: Cart, productId: ProductId, stockAmount: int, entry: CatalogEntry)
    requires productId !in Ids(cart) && stockAmount >= 1 && entry.id == productId
    ensures AddProduct(cart, productId, Some(stockAmount), Some(entry)).Committed?
    ensures var c := AddProduct(cart, productId, Some(stockAmount), Some(entry)).cart;
      && |c| == |cart| + 1
      && c[..|cart|] == cart
      && c[|cart|] == Item(productId, entry.details, 1)
      && Quantity(c, productId) == 1
  {
    var c := cart + [NewItem(entry)];
    assert c[..|cart|] == cart;
    QuantityConcat(cart, [NewItem(entry)], productId);
    QuantityAbsent(cart, productId);
  }

  /** Adding a product already in the cart, with stock for one more unit,
      keeps length and order and grows only that entry's amount, by one;
      the catalog answer is not consulted. */
  lemma AddExistingIncrements(cart: Cart, productId: ProductId, k: nat, stockAmount: int,
                              product: Option<CatalogEntry>)
    requires FirstWithId(cart, productId, k) && cart[k].amount + 1 <= stockAmount
    ensures AddProduct(cart, productId, Some(stockAmount), product).Committed?
    ensures var c := AddProduct(cart, productId, Some(stockAmount), product).cart;
      && |c| == |cart|
      && c[k] == cart[k].(amount := cart[k].amount + 1)
      && (forall j :: 0 <= j < |cart| && j != k ==> c[j] == cart[j])
    ensures AddProduct(cart, productId, Some(stockAmount), product)
         == AddProduct(cart, productId, Some(stockAmount), None)
  {
  }

  /** Add never goes above the stock reported: when committed, the quantity
      of the product grows by exactly one and stays within stock, every other
      product's quantity is unchanged; when one more unit would exceed
      stock, the add is rejected with the out-of-stock message alone. */
  lemma AddWithinStock(cart: Cart, productId: ProductId, stockAmount: int,
                       product: Option<CatalogEntry>)
    requires Valid(cart) && CatalogAgrees(productId, product)
    ensures var r := AddProduct(cart, productId, Some(stockAmount), product);
      && (r.Committed? ==>
            && Quantity(r.cart, productId) == Quantity(cart, productId) + 1
            && Quantity(r.cart, productId) <= stockAmount
            && forall x :: x != productId ==> Quantity(r.cart, x) == Quantity(cart, x))
      && (Quantity(cart, productId) + 1 > stockAmount ==>
            r == Rejected(OutOfStockMessage) && Apply(cart, r) == cart)
  {
    var r := AddProduct(cart, productId, Some(stockAmount), product);
    match FindIndex(cart, productId)
    case Some(k) =>
      QuantityOfEntry(cart, k);
      if r.Committed? {
        forall x ensures Quantity(r.cart, x) == Quantity(cart, x) + (if x == productId then 1 else 0) {
          QuantityWithAmount(cart, k, cart[k].amount + 1, x);
        }
      }
    case None =>
      QuantityAbsent(cart, productId);
      if r.Committed? {
        forall x ensures Quantity(r.cart, x) == Quantity(cart, x) + (if x == productId then 1 else 0) {
          QuantityConcat(cart, [NewItem(product.value)], x);
        }
      }
  }

  /** A failing gateway request aborts the add: nothing is committed, the
      cart stays as it was, and the one message is the generic add error. */
  lemma AddGatewayFailure(cart: Cart, productId: ProductId, stock: Option<int>,
                          product: Option<CatalogEntry>)
    requires stock.None? || (productId !in Ids(cart) && stock.value >= 1 && product.None?)
    ensures AddProduct(cart, productId, stock, product) == Rejected(AddErrorMessage)
    ensures Apply(cart, AddProduct(cart, productId, stock, product)) == cart
  {
  }

  /** Add keeps the cart invariant, provided the catalog answers with the
      product that was asked for (the new entry takes the catalog's id). */
  lemma AddPreservesValid(cart: Cart, productId: ProductId, stock: Option<int>,
                          product: Option<CatalogEntry>)
    requires Valid(cart) && CatalogAgrees(productId, product)
    ensures Valid(Apply(cart, AddProduct(cart, productId, stock, product)))
  {
    if stock.Some? {
      match FindIndex(cart, productId)
      case Some(k) =>
        WithAmountValid(cart, k, cart[k].amount + 1);
      case None =>
        if product.Some? {
          AppendValid(cart, NewItem(product.value));
        }
    }
  }

  // ------------------------------------------------------------- remove

  /** Removing a present product deletes exactly its entry: the length drops
      by one, the other entries keep their relative order, the product's
      quantity drops to zero and no other product's quantity changes. */
  lemma RemoveDeletes(cart: Cart, productId: ProductId, k: nat)
    requires Valid(cart) && FirstWithId(cart, productId, k)
    ensures RemoveProduct(cart, productId).Committed?
    ensures var c := RemoveProduct(cart, productId).cart;
      && |c| == |cart| - 1
      && (forall j :: 0 <= j < k ==> c[j] == cart[j])
      && (forall j :: k <= j < |c| ==> c[j] == cart[j + 1])
      && Ids(c) == Ids(cart) - {productId}
      && Quantity(c, productId) == 0
      && forall x :: x != productId ==> Quantity(c, x) == Quantity(cart, x)
  {
    var c := RemoveAt(cart, k);
    RemoveAtValid(cart, k);
    QuantityAbsent(c, productId);
    forall x | x != productId ensures Quantity(c, x) == Quantity(cart, x) {
      QuantityRemoveAt(cart, k, x);
    }
  }

  /** Removing an absent product commits nothing, leaves the cart as it was
      and reports the remove error; so repeating the call gives the same
      answer again. */
  lemma RemoveAbsentIdempotent(cart: Cart, productId: ProductId)
    requires productId !in Ids(cart)
    ensures RemoveProduct(cart, productId) == Rejected(RemoveErrorMessage)
    ensures Apply(cart, RemoveProduct(cart, productId)) == cart
    ensures RemoveProduct(Apply(cart, RemoveProduct(cart, productId)), productId)
         == RemoveProduct(cart, productId)
  {
  }

  /** On a valid cart, a second remove of the same product always fails
      and leaves the cart as the first remove left it. */
  lemma RemoveTwice(cart: Cart, productId: ProductId)
    requires Valid(cart)
    ensures var c := Apply(cart, RemoveProduct(cart, productId));
      && RemoveProduct(c, productId) == Rejected(RemoveErrorMessage)
      && Apply(c, RemoveProduct(c, productId)) == c
  {
    match FindIndex(cart, productId)
    case Some(k) => RemoveAtValid(cart, k);
    case None =>
  }

  /** Remove keeps the cart invariant. */
  lemma RemovePreservesValid(cart: Cart, productId: ProductId)
    requires Valid(cart)
    ensures Valid(Apply(cart, RemoveProduct(cart, productId)))
  {
    match FindIndex(cart, productId)
    case Some(k) => RemoveAtValid(cart, k);
    case None =>
  }

  // ------------------------------------------------------------- update

  /** A non-positive amount is a silent no-op that does not depend on the
      stock query at all (the query is never made). */
  lemma UpdateGuardIgnoresStock(cart: Cart, productId: ProductId, amount: int,
                                stock: Option<int>, stock': Option<int>)
    requires amount <= 0
    ensures UpdateProductAmount(cart, productId, amount, stock) == NoOp
    ensures UpdateProductAmount(cart, productId, amount, stock)
         == UpdateProductAmount(cart, productId, amount, stock')
    ensures Apply(cart, UpdateProductAmount(cart, productId, amount, stock)) == cart
  {
  }

  /** A positive amount above the reported stock is rejected with the
      out-of-stock message alone, whether or not the product is in the cart. */
  lemma UpdateOverStock(cart: Cart, productId: ProductId, amount: int, stockAmount: int)
    requires 0 < amount && stockAmount < amount
    ensures UpdateProductAmount(cart, productId, amount, Some(stockAmount)) == Rejected(OutOfStockMessage)
    ensures Apply(cart, UpdateProductAmount(cart, productId, amount, Some(stockAmount))) == cart
  {
  }

  /** An update within stock of a present product sets that entry's amount to
      the requested value, so the product's quantity becomes exactly `amount`
      (an absolute value, not an increment); nothing else changes. */
  lemma UpdateSetsAmount(cart: Cart, productId: ProductId, k: nat, amount: int, stockAmount: int)
    requires Valid(cart) && FirstWithId(cart, productId, k) && 0 < amount <= stockAmount
    ensures UpdateProductAmount(cart, productId, amount, Some(stockAmount)).Committed?
    ensures var c := UpdateProductAmount(cart, productId, amount, Some(stockAmount)).cart;
      && |c| == |cart|
      && c[k] == cart[k].(amount := amount)
      && (forall j :: 0 <= j < |cart| && j != k ==> c[j] == cart[j])
      && Quantity(c, productId) == amount
      && forall x :: x != productId ==> Quantity(c, x) == Quantity(cart, x)
  {
    var c := WithAmount(cart, k, amount);
    QuantityOfEntry(cart, k);
    forall x ensures Quantity(c, x) == Quantity(cart, x) + (if x == productId then amount - cart[k].amount else 0) {
      QuantityWithAmount(cart, k, amount, x);
    }
  }

  /** Updating a product that is not in the cart, or with a failed stock
      query, commits nothing and reports the update error. */
  lemma UpdateFailure(cart: Cart, productId: ProductId, amount: int, stock: Option<int>)
    requires 0 < amount
    requires stock.None? || (amount <= stock.value && productId !in Ids(cart))
    ensures UpdateProductAmount(cart, productId, amount, stock) == Rejected(UpdateErrorMessage)
    ensures Apply(cart, UpdateProductAmount(cart, productId, amount, stock)) == cart
  {
  }

  /** Because the amount is absolute, repeating the same update on the cart
      it produced changes nothing further. */
  lemma UpdateIdempotent(cart: Cart, productId: ProductId, amount: int, stock: Option<int>)
    ensures var c := Apply(cart, UpdateProductAmount(cart, productId, amount, stock));
      Apply(c, UpdateProductAmount(c, productId, amount, stock)) == c
  {
    var r := UpdateProductAmount(cart, productId, amount, stock);
    if r.Committed? {
      var k := FindIndex(cart, productId).value;
      var c := r.cart;
      assert FirstWithId(c, productId, k);
      assert c[k := c[k].(amount := amount)] == c;
    }
  }

  /** Update keeps the cart invariant: it only ever writes a positive amount. */
  lemma UpdatePreservesValid(cart: Cart, productId: ProductId, amount: int, stock: Option<int>)
    requires Valid(cart)
    ensures Valid(Apply(cart, UpdateProductAmount(cart, productId, amount, stock)))
  {
    if amount > 0 && stock.Some? && amount <= stock.value {
      match FindIndex(cart, productId)
      case Some(k) => WithAmountValid(cart, k, amount);
      case None =>
    }
  }
}
