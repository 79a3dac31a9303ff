/** The cart's data model: items, the id lookups the operations perform,
    and the well-formedness invariant every reachable cart satisfies. */
module Carts {
  import opened Wrappers

  type ProductId = int

  /** The opaque display fields of a catalog product. */
  datatype Details = Details(title: string, price: real, image: string)

  /** A product record as the catalog returns it (without a quantity). */
  datatype CatalogEntry = CatalogEntry(id: ProductId, details: Details)

  /** A catalog product together with the quantity held in the cart. */
  datatype Item = Item(id: ProductId, details: Details, amount: int)

  /** The cart is ordered: new items go at the end, updates keep positions. */
  type Cart = seq<Item>

  /** The set of product ids present in the cart. */
  function Ids(cart: Cart): set<ProductId>
  {
    set i | 0 <= i < |cart| :: cart[i].id
  }

  /** `k` is the position of the first entry carrying `id`. */
  predicate FirstWithId(cart: Cart, id: ProductId, k: int)
  {
    && 0 <= k < |cart|
    && cart[k].id == id
    && forall j :: 0 <= j < k ==> cart[j].id != id
  }

  /** Ids are pairwise distinct. */
  predicate UniqueIds(cart: Cart)
  {
    forall i, j :: 0 <= i < |cart| && 0 <= j < |cart| && i != j ==> cart[i].id != cart[j].id
  }

  /** Every entry holds at least one unit. */
  predicate PositiveAmounts(cart: Cart)
  {
    forall i :: 0 <= i < |cart| ==> cart[i].amount >= 1
  }

  /** The cart invariant: unique ids and positive amounts. */
  predicate Valid(cart: Cart)
  {
    UniqueIds(cart) && PositiveAmounts(cart)
  }

  /** Left-to-right search from position `from`, as `Array.prototype.findIndex`
      does; `None` plays the role of the `-1` answer. */
  function FindFrom(cart: Cart, id: ProductId, from: nat): (r: Option<nat>)
    requires from <= |cart|
    ensures r.Some? ==> from <= r.value < |cart| && cart[r.value].id == id
    ensures r.Some? ==> forall j :: from <= j < r.value ==> cart[j].id != id
    ensures r.None? ==> forall j :: from <= j < |cart| ==> cart[j].id != id
    decreases |cart| - from
  {
    if from == |cart| then None
    else if cart[from].id == id then Some(from)
    else FindFrom(cart, id, from + 1)
  }

  /** The position of the first entry carrying `id`, if any. */
  function FindIndex(cart: Cart, id: ProductId): (r: Option<nat>)
    ensures r.Some? <==> id in Ids(cart)
    ensures r.Some? ==> FirstWithId(cart, id, r.value)
  {
    var r := FindFrom(cart, id, 0);
    assert r.None? ==> id !in Ids(cart);
    r
  }

  /** Replace the amount of the entry at `k`; every other field and entry is kept. */
  function WithAmount(cart: Cart, k: nat, amount: int): (c: Cart)
    requires k < |cart|
    ensures |c| == |cart|
    ensures c[k] == Item(cart[k].id, cart[k].details, amount)
    ensures forall j :: 0 <= j < |cart| && j != k ==> c[j] == cart[j]
  {
    cart[k := cart[k].(amount := amount)]
  }

  /** The cart without the entry at `k`, the rest in their original order. */
  function RemoveAt(cart: Cart, k: nat): (c: Cart)
    requires k < |cart|
    ensures |c| == |cart| - 1
    ensures forall j :: 0 <= j < k ==> c[j] == cart[j]
    ensures forall j :: k <= j < |c| ==> c[j] == cart[j + 1]
  {
    cart[..k] + cart[k + 1..]
  }

  /** The total quantity of product `id` held in the cart, summed over its
      entries: the reference view of what the cart holds. */
  function Quantity(cart: Cart, id: ProductId): int
  {
    if |cart| == 0 then 0
    else (if cart[0].id == id then cart[0].amount else 0) + Quantity(cart[1..], id)
  }

  /** Quantities add up over concatenation. */
  lemma {:induction false} QuantityConcat(a: Cart, b: Cart, id: ProductId)
    ensures Quantity(a + b, id) == Quantity(a, id) + Quantity(b, id)
  {
    if |a| == 0 {
      assert a + b == b;
    } else {
      assert (a + b)[1..] == a[1..] + b;
      QuantityConcat(a[1..], b, id);
    }
  }

  /** A product absent from the cart has quantity zero. */
  lemma {:induction false} QuantityAbsent(cart: Cart, id: ProductId)
    requires id !in Ids(cart)
    ensures Quantity(cart, id) == 0
  {
    if |cart| > 0 {
      assert cart[0].id != id;
      assert id !in Ids(cart[1..]);
      QuantityAbsent(cart[1..], id);
    }
  }

  /** The cart split around position `k`. */
  lemma SplitAt(cart: Cart, k: nat)
    requires k < |cart|
    ensures cart == cart[..k] + [cart[k]] + cart[k + 1..]
  {
  }

  /** The quantity of one product in the cart, seen around position `k`. */
  lemma QuantitySplit(cart: Cart, k: nat, id: ProductId)
    requires k < |cart|
    ensures Quantity(cart, id) ==
      Quantity(cart[..k], id) + (if cart[k].id == id then cart[k].amount else 0) + Quantity(cart[k + 1..], id)
  {
    SplitAt(cart, k);
    QuantityConcat(cart[..k] + [cart[k]], cart[k + 1..], id);
    QuantityConcat(cart[..k], [cart[k]], id);
    assert [cart[k]][1..] == [];
  }

  /** With unique ids, a product's quantity is the amount of its one entry. */
  lemma QuantityOfEntry(cart: Cart, k: nat)
    requires UniqueIds(cart) && k < |cart|
    ensures Quantity(cart, cart[k].id) == cart[k].amount
  {
    var id := cart[k].id;
    QuantitySplit(cart, k, id);
    assert id !in Ids(cart[..k]);
    assert id !in Ids(cart[k + 1..]);
    QuantityAbsent(cart[..k], id);
    QuantityAbsent(cart[k + 1..], id);
  }

  /** Changing the amount at `k` changes that product's quantity by the
      difference and no other product's. */
  lemma QuantityWithAmount(cart: Cart, k: nat, amount: int, id: ProductId)
    requires k < |cart|
    ensures Quantity(WithAmount(cart, k, amount), id) ==
      Quantity(cart, id) + (if cart[k].id == id then amount - cart[k].amount else 0)
  {
    var c := WithAmount(cart, k, amount);
    QuantitySplit(cart, k, id);
    QuantitySplit(c, k, id);
    assert c[..k] == cart[..k];
    assert c[k + 1..] == cart[k + 1..];
  }

  /** Removing the entry at `k` takes away its amount from its product and
      nothing from any other product. */
  lemma QuantityRemoveAt(cart: Cart, k: nat, id: ProductId)
    requires k < |cart|
    ensures Quantity(RemoveAt(cart, k), id) ==
      Quantity(cart, id) - (if cart[k].id == id then cart[k].amount else 0)
  {
    QuantitySplit(cart, k, id);
    QuantityConcat(cart[..k], cart[k + 1..], id);
  }

  /** Changing one entry's amount keeps the ids and, if the new amount is
      positive, the whole invariant. */
  lemma WithAmountValid(cart: Cart, k: nat, amount: int)
    requires Valid(cart) && k < |cart| && amount >= 1
    ensures Ids(WithAmount(cart, k, amount)) == Ids(cart)
    ensures Valid(WithAmount(cart, k, amount))
  {
  }

  /** Removing an entry of a cart with unique ids removes exactly its id
      and keeps the invariant. */
  lemma {:induction false} RemoveAtValid(cart: Cart, k: nat)
    requires Valid(cart) && k < |cart|
    ensures Ids(RemoveAt(cart, k)) == Ids(cart) - {cart[k].id}
    ensures Valid(RemoveAt(cart, k))
  {
    var c := RemoveAt(cart, k);
    forall x | x in Ids(cart) - {cart[k].id} ensures x in Ids(c) {
      var i :| 0 <= i < |cart| && cart[i].id == x;
      if i < k {
        assert c[i].id == x;
      } else {
        assert c[i - 1].id == x;
      }
    }
    forall x | x in Ids(c) ensures x in Ids(cart) - {cart[k].id} {
      var i :| 0 <= i < |c| && c[i].id == x;
      if i < k {
        assert c[i] == cart[i];
      } else {
        assert c[i] == cart[i + 1];
      }
    }
    forall i, j | 0 <= i < |c| && 0 <= j < |c| && i != j ensures c[i].id != c[j].id {
      var i' := if i < k then i else i + 1;
      var j' := if j < k then j else j + 1;
      assert c[i] == cart[i'] && c[j] == cart[j'];
    }
  }

  /** Appending an item whose id is new keeps the invariant. */
  lemma AppendValid(cart: Cart, item: Item)
    requires Valid(cart) && item.id !in Ids(cart) && item.amount >= 1
    ensures Ids(cart + [item]) == Ids(cart) + {item.id}
    ensures Valid(cart + [item])
  {
    var c := cart + [item];
    assert c[|cart|] == item;
    forall x | x in Ids(cart) ensures x in Ids(c) {
      var i :| 0 <= i < |cart| && cart[i].id == x;
      assert c[i].id == x;
    }
  }
}
