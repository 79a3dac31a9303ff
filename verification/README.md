# RocketShoes cart engine in Dafny

This project models the cart engine of the RocketShoes storefront's `CartProvider`
(`src/hooks/useCart.tsx`). The cart is an ordered list of products, each carrying the
`amount` held. Three operations change it:

- `addProduct` puts one more unit of a product in the cart, within the stock the
  inventory service reports.
- `removeProduct` deletes a product's entry.
- `updateProductAmount` sets a product's quantity to an absolute value, within stock.

Every committed cart also becomes the stored copy in the browser's persistent store.

Each operation is a pure function: its inputs are the current cart and the inventory
service's answers, and it returns an `Outcome`:

- `Committed(cart)` is the `setCart` path. The new cart is then persisted.
- `Rejected(message)` is the `toast.error` path, carrying exactly one message, verbatim.
- `NoOp` is the silent early return.

A service request that throws is passed in as `None`.

Files:

- `wrappers.dfy`: `Option`.
- `cart.dfy` (module `Carts`): items and carts. It defines the first-match lookup used by
  `find`/`findIndex`, replace-at-index and remove-at-index, and the cart invariant
  `Valid` (unique ids, every amount at least 1). It also defines `Quantity`, the total
  quantity of a product summed over its entries. `Quantity` is a reference view that
  the operations are proved against.
- `cart_engine.dfy` (module `CartEngine`): the three operations and the four messages.
- `cart_laws.dfy` (module `CartLaws`): properties of each operation and preservation
  of the invariant.
- `cart_session.dfy` (module `CartSession`): opening the cart from the store,
  commit-and-persist, and runs of calls. When every catalog answer is the requested
  product, the invariant holds in every reachable cart, and reopening from the store
  gives back the current cart.

Three details of the code's behaviour carry into the model:

- A new entry is built by spreading the catalog record and adding `amount: 1`. Its id is
  therefore the catalog record's id, not the requested `productId`. Invariant
  preservation for add assumes the catalog answers with the requested product
  (`CatalogAgrees`). Without that assumption, a duplicate id can enter the cart.
- Update queries stock before it looks the product up in the cart. Updating an absent
  product to an amount above stock therefore reports the out-of-stock message, not the
  update error.
- Lookups take the first entry with the id, as `find`/`findIndex` do. On a valid cart
  this is the only entry.

## Model

| member | source | states |
|---|---|---|
| Carts.FindFrom | src/hooks/useCart.tsx:90-92 | a left-to-right search answers the first position at or after the start whose id matches, or none when no later entry matches |
| Carts.FindIndex | src/hooks/useCart.tsx:59 | the lookup finds something exactly when the id is in the cart, and what it finds is the first entry with that id |
| Carts.RemoveAtValid | src/hooks/useCart.tsx:94 | deleting one entry of a valid cart removes exactly that entry's id and keeps ids unique and amounts positive |
| Carts.WithAmountValid | src/hooks/useCart.tsx:126 | setting one entry's amount to a positive value keeps the cart's ids and its validity |
| Carts.WithAmount | src/hooks/useCart.tsx:125-126 | setting the found entry's amount on the copied cart keeps the length, gives that entry the new amount with its id and details, and leaves every other entry as it was |
| Carts.RemoveAt | src/hooks/useCart.tsx:94 | `splice(index, 1)`: the result is one shorter, entries before the index are unchanged, and entries after it move down by one |
| Carts.QuantityWithAmount | src/hooks/useCart.tsx:70 | changing the amount of one entry changes its product's quantity by the difference and no other product's |
| Carts.QuantityRemoveAt | src/hooks/useCart.tsx:94 | deleting an entry takes its amount away from its product's quantity and from no other |
| CartEngine.AddProduct | src/hooks/useCart.tsx:56-85 | full behaviour of add: failed stock query gives the add error; a present product's first entry grows by one or is rejected as out of stock; an absent product is appended as `NewItem` of the catalog record (the record's id and details, amount 1), or rejected as out of stock when stock is below 1, or given the add error when the catalog fetch fails; never a no-op |
| CartEngine.RemoveProduct | src/hooks/useCart.tsx:87-102 | an absent id gives the remove error; a present id commits the cart without its first entry, the rest in order |
| CartEngine.UpdateProductAmount | src/hooks/useCart.tsx:104-136 | amount at most 0 is a no-op; failed stock query gives the update error; amount above stock gives the out-of-stock message; an absent id gives the update error; otherwise the first entry's amount becomes the requested value |
| CartLaws.AddNewAppends | src/hooks/useCart.tsx:73-81 | when the catalog answers with the requested product, adding an absent product with stock for one unit commits the old cart plus one entry of amount 1 at the end; the product's quantity becomes 1 |
| CartLaws.AddExistingIncrements | src/hooks/useCart.tsx:62-70 | adding a present product within stock keeps length and order, raises only that entry's amount by exactly 1, and does not use the catalog answer |
| CartLaws.AddWithinStock | src/hooks/useCart.tsx:62-67 | on a valid cart, when the catalog answers with the requested product, a committed add raises the product's quantity by 1 without exceeding stock and leaves other products' quantities alone; when one more unit exceeds stock, the result is only the out-of-stock message and the cart is unchanged |
| CartLaws.AddGatewayFailure | src/hooks/useCart.tsx:74-84 | a failed stock query, or a failed catalog fetch for a new product, commits nothing and reports the add error |
| CartLaws.AddPreservesValid | src/hooks/useCart.tsx:59-81 | add keeps ids unique and amounts positive when the catalog answers with the requested product |
| CartLaws.RemoveDeletes | src/hooks/useCart.tsx:89-95 | on a valid cart, removing a present product shortens the cart by one and keeps the others in relative order; the product's id leaves the cart and its quantity drops to 0; other quantities are unchanged |
| CartLaws.RemoveAbsentIdempotent | src/hooks/useCart.tsx:93-100 | removing an absent product reports the remove error, leaves the cart unchanged, and repeating it gives the same answer |
| CartLaws.RemoveTwice | src/hooks/useCart.tsx:89-100 | on a valid cart, a second remove of the same product always fails and changes nothing |
| CartLaws.RemovePreservesValid | src/hooks/useCart.tsx:89-95 | remove keeps ids unique and amounts positive |
| CartLaws.UpdateGuardIgnoresStock | src/hooks/useCart.tsx:109-111 | an amount at most 0 is a silent no-op whatever the stock query would answer |
| CartLaws.UpdateOverStock | src/hooks/useCart.tsx:112-118 | a positive amount above stock reports only the out-of-stock message, whether or not the product is in the cart, and leaves the cart unchanged |
| CartLaws.UpdateSetsAmount | src/hooks/useCart.tsx:120-132 | on a valid cart, an update within stock of a present product sets that entry's amount to the requested value, so the product's quantity equals it; every other entry and quantity is unchanged |
| CartLaws.UpdateFailure | src/hooks/useCart.tsx:128-134 | a failed stock query, or an absent product within stock, reports the update error and leaves the cart unchanged |
| CartLaws.UpdateIdempotent | src/hooks/useCart.tsx:125-127 | because the amount is absolute, repeating an update on the cart it produced changes nothing |
| CartLaws.UpdatePreservesValid | src/hooks/useCart.tsx:109-127 | update keeps ids unique and amounts positive |
| CartSession.Open | src/hooks/useCart.tsx:32-40 | opening writes nothing and yields a session in step with its store: the stored cart, or an empty cart when nothing is stored |
| CartSession.Commit | src/hooks/useCart.tsx:50-54 | read-after-write: applying any outcome to a session in step with its store leaves it in step; the cart becomes the committed one, or stays as it was on a rejection or no-op, a commit writes the committed cart to the store, and a rejection or no-op does not write the store |
| CartSession.PerformKeeps | src/hooks/useCart.tsx:56-136 | when the catalog answers with the requested product, any single call keeps the invariant and keeps the store in step with the cart |
| CartSession.RunKeepsInvariant | src/hooks/useCart.tsx:44-54 | after any run of calls from a valid session in which every catalog answer is the requested product, the cart is valid and reopening from the store reproduces it |
| CartSession.OpenValid | src/hooks/useCart.tsx:35-39 | a session opened from nothing or from a valid stored cart is valid and in step with the store |

## Left out

- React plumbing (`createContext`, `useState`, `useRef`, `useContext`, the provider element, `useCart`) has no logic of its own.
- The store's text encoding is not modelled. The store holds the cart value itself, so `JSON.stringify`/`JSON.parse` round-tripping is taken as given. A corrupt stored value (the unguarded parse) is outside the model: `OpenValid` asks for a valid stored cart.
- The stored string `""` counts as absent in `useCart.tsx`, because line 35 is a falsy check. In the model it is folded into `None`.
- The effect that persists on a changed array reference is modelled as "every commit writes". Every commit builds a new array, so the two agree.
- The two `setCart` calls with the same array on the update path are modelled as one commit.
- The HTTP calls to the inventory service are passed in as `Option` answers. A response whose `amount` is missing or not a number is not modelled: stock is an integer.
- `toast.error` is modelled as the message carried by `Rejected`.
- Product ids, amounts and stock are unbounded integers, while `useCart.tsx` works on JavaScript doubles. The model does not represent three kinds of input:
  - Fractional amounts: an amount such as 0.5 passes the `amount <= 0` guard of update (line 109).
  - Amounts of 2^53 and more: `productExists.amount + 1` at line 62 rounds back to the same value, so an add against a stock that large commits the amount unchanged.
  - `NaN`: it passes both update guards (lines 109 and 115) and is committed as the amount.
- CartLaws.AddExistingIncrements: "grows by exactly 1" holds for integer amounts only; it does not model the double rounding at 2^53 and above.
- CartLaws.AddWithinStock: "the quantity grows by exactly 1" holds for integer amounts only, for the same reason.
- Shallow copy plus in-place mutation of the found entry is modelled as replace-at-index. The mutation also reaches the previous render's array, which has no observable effect on the committed cart when calls do not overlap.
- Every call works on the cart captured when its render ran (lines 58 and 120), and add and update commit only after awaiting the inventory service. A call that overlaps another can therefore overwrite that call's commit. Two adds of a product not yet in the cart lose an increment: each pushes its own entry of amount 1 onto its own copy (line 79), and the last commit wins. Two adds of a product already present do not, because line 62 reads the shared entry after the await and line 70 writes to it. An add of one product drops the entry that an overlapping add of another product appended. An update that overlaps a remove brings the removed entry back. The model treats operations as sequential.
- Product display fields (title, price, image) are opaque `Details` that the operations copy but never inspect.
