/** The cart provider's state over a session: the cart opened from the
    persistent store, every committed outcome becoming both the current cart
    and the stored copy, and runs of operations. */
module CartSession {
  import opened Wrappers
  import opened Carts
  import opened CartEngine
  import opened CartLaws

  /** The current cart and the last cart written to the persistent store
      (`None` when nothing has been stored). The store's text encoding is
      not modelled: it holds the cart value itself. */
  datatype Session = Session(cart: Cart, stored: Option<Cart>)

  /** One call into the cart provider, with the gateway's answers to the
      requests that call would make. */
  datatype Op =
    | Add(productId: ProductId, stock: Option<int>, product: Option<CatalogEntry>)
    | Remove(productId: ProductId)
    | Update(productId: ProductId, amount: int, stock: Option<int>)

  /** Start of a session: the stored cart if there is one, else an empty cart.
      Opening writes nothing. */
  function Open(stored: Option<Cart>): (s: Session)
    ensures s.stored == stored
    ensures Synced(s)
  {
    match stored
    case None => Session([], None)
    case Some(c) => Session(c, Some(c))
  }

  /** Apply an outcome: a commit replaces the current cart and writes it to the
      store; a rejection or a no-op changes neither. */
  function Commit(s: Session, o: Outcome): (t: Session)
    ensures Synced(s) ==> Synced(t)
    ensures t.cart == Apply(s.cart, o)
    ensures o.Committed? ==> t.stored == Some(o.cart)
    ensures !o.Committed? ==> t.stored == s.stored
  {
    if o.Committed? then Session(o.cart, Some(o.cart)) else s
  }

  /** The outcome of one call on the given cart. */
  function Perform(cart: Cart, op: Op): Outcome
  {
    match op
    case Add(id, stock, product) => AddProduct(cart, id, stock, product)
    case Remove(id) => RemoveProduct(cart, id)
    case Update(id, amount, stock) => UpdateProductAmount(cart, id, amount, stock)
  }

  /** The session after the calls `ops`, one after another. */
  function Run(s: Session, ops: seq<Op>): Session
    decreases |ops|
  {
    if |ops| == 0 then s else Run(Commit(s, Perform(s.cart, ops[0])), ops[1..])
  }

  /** The catalog answers every add with the product that was asked for. */
  predicate Honest(op: Op)
  {
    op.Add? ==> CatalogAgrees(op.productId, op.product)
  }

  /** The store is in step with the cart: it holds the current cart, or
      nothing has been stored yet and the cart is still empty. */
  predicate Synced(s: Session)
  {
    match s.stored
    case None => s.cart == []
    case Some(c) => c == s.cart
  }

  /** A session in step with its store is exactly what reopening that store gives. */
  lemma SyncedReopens(s: Session)
    requires Synced(s)
    ensures Open(s.stored) == s
  {
  }

  /** Each single call keeps the invariant and keeps the store in step. */
  lemma PerformKeeps(s: Session, op: Op)
    requires Valid(s.cart) && Synced(s) && Honest(op)
    ensures Valid(Commit(s, Perform(s.cart, op)).cart)
    ensures Synced(Commit(s, Perform(s.cart, op)))
  {
    match op
    case Add(id, stock, product) => AddPreservesValid(s.cart, id, stock, product);
    case Remove(id) => RemovePreservesValid(s.cart, id);
    case Update(id, amount, stock) => UpdatePreservesValid(s.cart, id, amount, stock);
  }

  /** Every cart reachable from a valid opened session by calls whose catalog
      answers are honest has unique ids and positive amounts, and reopening
      from the store at any point gives back the same cart. */
  lemma {:induction false} RunKeepsInvariant(s: Session, ops: seq<Op>)
    requires Valid(s.cart) && Synced(s)
    requires forall i :: 0 <= i < |ops| ==> Honest(ops[i])
    ensures Valid(Run(s, ops).cart)
    ensures Open(Run(s, ops).stored) == Run(s, ops)
    decreases |ops|
  {
    if |ops| > 0 {
      PerformKeeps(s, ops[0]);
      RunKeepsInvariant(Commit(s, Perform(s.cart, ops[0])), ops[1..]);
    } else {
      SyncedReopens(s);
    }
  }

  /** A session opened from nothing or from a valid stored cart starts valid
      and in step with the store. */
  lemma OpenValid(stored: Option<Cart>)
    requires stored.Some? ==> Valid(stored.value)
    ensures Valid(Open(stored).cart) && Synced(Open(stored))
  {
  }
}
