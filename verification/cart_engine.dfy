/** The three cart operations of the cart provider, each a pure transition
    from the current cart and the inventory gateway's answers to an outcome. */
module CartEngine {
  import opened Wrappers
  import opened Carts

  /** Notification texts, verbatim. */
  const OutOfStockMessage: string := "Quantidade solicitada fora de estoque"
  const AddErrorMessage: string := "Erro na adição do produto"
  const RemoveErrorMessage: string := "Erro na remoção do produto"
  const UpdateErrorMessage: string := "Erro na alteração de quantidade do produto"

  /** What an operation does: commit a new cart (which is then persisted),
      reject with exactly one error notification, or silently do nothing. */
  datatype Outcome = Committed(cart: Cart) | Rejected(message: string) | NoOp

  /** The cart held after an operation's outcome is applied. */
  function Apply(cart: Cart, o: Outcome): Cart
  {
    if o.Committed? then o.cart else cart
  }

  /** The cart entry built from a fetched catalog record: its fields are
      spread over a new object with amount 1, so the id is the record's own. */
  function NewItem(entry: CatalogEntry): Item
  {
    Item(entry.id, entry.details, 1)
  }

  /** The catalog answers with the product that was asked for. */
  predicate CatalogAgrees(productId: ProductId, product: Option<CatalogEntry>)
  {
    product.Some? ==> product.value.id == productId
  }

  /** Add one unit of `productId`. `stock` is the stock query's answer and
      `product` the catalog fetch's answer (`None`: the request threw); the
      catalog is only consulted when the product is not in the cart yet. */
  function AddProduct(cart: Cart, productId: ProductId, stock: Option<int>,
                      product: Option<CatalogEntry>): (r: Outcome)
    // a failed stock query aborts the whole add
    ensures stock.None? ==> r == Rejected(AddErrorMessage)
    // already present: the first entry with that id grows by one, within stock
    ensures forall k :: FirstWithId(cart, productId, k) && stock.Some? ==>
      if cart[k].amount + 1 > stock.value then r == Rejected(OutOfStockMessage)
      else r == Committed(cart[k := Item(productId, cart[k].details, cart[k].amount + 1)])
    // absent: a new entry with amount 1 goes at the end, if stock and catalog allow
    ensures productId !in Ids(cart) && stock.Some? ==>
      if 1 > stock.value then r == Rejected(OutOfStockMessage)
      else if product.None? then r == Rejected(AddErrorMessage)
      else r == Committed(cart + [Item(product.value.id, product.value.details, 1)])
    ensures r != NoOp
  {
    match stock
    case None => Rejected(AddErrorMessage)
    case Some(stockAmount) =>
      var found := FindIndex(cart, productId);
      var amount := if found.Some? then cart[found.value].amount + 1 else 1;
      if amount > stockAmount then Rejected(OutOfStockMessage)
      else if found.Some? then Committed(WithAmount(cart, found.value, amount))
      else
        match product
        case None => Rejected(AddErrorMessage)
        case Some(entry) => Committed(cart + [NewItem(entry)])
  }

  /** Remove the entry for `productId`. */
  function RemoveProduct(cart: Cart, productId: ProductId): (r: Outcome)
    ensures productId !in Ids(cart) ==> r == Rejected(RemoveErrorMessage)
    ensures forall k :: FirstWithId(cart, productId, k) ==>
      r == Committed(cart[..k] + cart[k + 1..])
  {
    match FindIndex(cart, productId)
    case None => Rejected(RemoveErrorMessage)
    case Some(k) => Committed(RemoveAt(cart, k))
  }

  /** Set the amount of `productId` to `amount` (an absolute value). `stock`
      is the stock query's answer; it is not asked for when `amount <= 0`. */
  function UpdateProductAmount(cart: Cart, productId: ProductId, amount: int,
                               stock: Option<int>): (r: Outcome)
    ensures amount <= 0 ==> r == NoOp
    ensures amount > 0 && stock.None? ==> r == Rejected(UpdateErrorMessage)
    ensures amount > 0 && stock.Some? && amount > stock.value ==> r == Rejected(OutOfStockMessage)
    ensures amount > 0 && stock.Some? && amount <= stock.value && productId !in Ids(cart) ==>
      r == Rejected(UpdateErrorMessage)
    ensures forall k :: FirstWithId(cart, productId, k) && amount > 0 && stock.Some? && amount <= stock.value ==>
      r == Committed(cart[k := Item(productId, cart[k].details, amount)])
  {
    if amount <= 0 then NoOp
    else
      match stock
      case None => Rejected(UpdateErrorMessage)
      case Some(stockAmount) =>
        if amount > stockAmount then Rejected(OutOfStockMessage)
        else
          match FindIndex(cart, productId)
          case None => Rejected(UpdateErrorMessage)
          case Some(k) => Committed(WithAmount(cart, k, amount))
  }
}
