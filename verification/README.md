# Cart reconciliation of BlazorEcommerce, modelled in Dafny

The storefront keeps a shopping cart in two places. A visitor who is not signed in has a
cart in the browser's local storage: a `"cart"` slot holding a list of `CartItem`
(`ProductId`, `ProductTypeId`, `Quantity`) and a `"cartItemsCount"` slot caching its length.
A signed-in user's cart is a set of rows in the server's `CartItems` table, each row also
carrying its `UserId`. Both sides add with merge: a line with the same
(`ProductId`, `ProductTypeId`) has its quantity increased instead of being duplicated. At
sign-in the client posts its local list to the server, whose code appends it to the user's
rows with no merging step; the model takes the table to accept the resulting repeated keys
(see "## Left out"). The server's pricing resolver joins cart lines with the product and variant
catalogs and returns display rows. It drops silently any line whose product or variant is
missing.

The model is functional. Local storage is a `LocalStorage` value with an
`Option<seq<CartItem>>` cart slot and an `int` count slot. The cart table and the catalogs
are sequences; unordered database reads are taken in insertion order. Every operation is a pure function from the old state to
the new state and its answer.

| file | module | models |
|---|---|---|
| `wrappers.dfy` | `Wrappers` | `Option` for absent slots and failed look-ups |
| `cart_items.dfy` | `CartItems` | `CartItem`, its key, first-match look-up (`List.Find`), C# `int` addition with wrap-around |
| `pricing.dfy` | `Pricing` | the server's `GetCartProducts` join |
| `local_cart.dfy` | `LocalCart` | the client service's local-storage branches |
| `server_cart.dfy` | `ServerCart` | the server service's table operations |
| `reconciliation.dfy` | `Reconciliation` | how the two cart managers relate, and the sign-in transfer |

Points where the code behaves differently from what its names suggest:
- `UserId` on a cart line is a plain `int` (0 on the client), not an optional value.
- Nothing enforces `Quantity >= 1`. Quantities are C# `int` and `+=` wraps around
  modulo 2^32, as it does in C#'s default unchecked context.
- `UpdateQuantity` removes the matching line. It does not change a quantity. It also leaves
  the count slot as it was.
- `StoreCartItems(true)` deletes the cart slot but not the count slot, so the cached count
  goes stale. `UpdateQuantity` can leave it stale too. Adding, removing and refreshing the
  count keep it in step (`LocalCart.CountStaysInSync`).

## Model

| member | source | states |
|---|---|---|
| `CartItems.AddQuantity` | BlazorEcommerce/Client/Services/CartService/CartService.cs:45 | `+=` on C# `int`: the result is the 32-bit value congruent to the exact sum modulo 2^32, and it equals the sum whenever the sum fits |
| `CartItems.FindItem` | BlazorEcommerce/Client/Services/CartService/CartService.cs:38 | `List.Find` by (ProductId, ProductTypeId): None exactly when no line has the key, otherwise the index of the first line that has it |
| `CartItems.RemoveAt` | BlazorEcommerce/Client/Services/CartService/CartService.cs:123 | `List.Remove` of the found line: one line fewer, the multiset loses exactly that line, and the other lines keep their order |
| `LocalCart.Merge` | BlazorEcommerce/Client/Services/CartService/CartService.cs:38-46 | with no line for the key the item is appended at the end; otherwise only the first line with the key changes, its quantity becoming old + added, and the length is unchanged |
| `LocalCart.AddToCart` | BlazorEcommerce/Client/Services/CartService/CartService.cs:32-51 | an absent cart becomes the one-line cart `[item]`, a present one is merged into, and the count slot is then in step with the stored list |
| `LocalCart.GetCartItemsCount` | BlazorEcommerce/Client/Services/CartService/CartService.cs:78-79 | the count slot becomes the number of lines (not the summed quantity), 0 with no cart; the cart slot is untouched |
| `LocalCart.RemoveProductFromCart` | BlazorEcommerce/Client/Services/CartService/CartService.cs:112-127 | no-op with no cart or no matching line; otherwise exactly the first matching line is removed, the others keep their order, and the count is refreshed |
| `LocalCart.UpdateQuantity` | BlazorEcommerce/Client/Services/CartService/CartService.cs:153-166 | no-op with no cart or no match; otherwise removes the first line with the product's key; the count slot never changes |
| `LocalCart.StoreCartItems` | BlazorEcommerce/Client/Services/CartService/CartService.cs:136-148 | posts exactly the stored cart (nothing when absent); with no cart, or when not asked to empty it, storage is unchanged; otherwise the cart slot is deleted iff `emptyLocalCart`; the count slot is never touched |
| `LocalCart.GetCartProducts` | BlazorEcommerce/Client/Services/CartService/CartService.cs:94-103 | no cart prices as the empty list; otherwise at most one row per stored line |
| `LocalCart.AddToAbsentCart` | BlazorEcommerce/Client/Services/CartService/CartService.cs:32-36 | adding to an absent cart gives the one-line cart and a count of 1 |
| `LocalCart.AddNewKey` | BlazorEcommerce/Client/Services/CartService/CartService.cs:38-42 | a new key leaves the old lines as a prefix of the new cart and grows cart and count by exactly 1 |
| `LocalCart.AddExistingKey` | BlazorEcommerce/Client/Services/CartService/CartService.cs:38-51 | a key already present changes neither the number of lines nor the count |
| `LocalCart.MergeKeys` | BlazorEcommerce/Client/Services/CartService/CartService.cs:38-46 | the set of keys after an add is the set before plus the item's key |
| `LocalCart.MergePreservesDistinctKeys` | BlazorEcommerce/Client/Services/CartService/CartService.cs:38-46 | pairwise distinct keys stay pairwise distinct after an add |
| `LocalCart.MergeAtFirstMatch` | BlazorEcommerce/Client/Services/CartService/CartService.cs:38-46 | merging into `a + [x] + b`, where `x` is the first line with the key, replaces `x` by its increased copy and keeps `a` and `b` |
| `LocalCart.MergeTwice` | BlazorEcommerce/Client/Services/CartService/CartService.cs:38-46 | adding one new key twice, with q1 and q2, gives one appended line whose quantity is the 32-bit wrapped sum of q1 and q2 |
| `LocalCart.MergeTwoVariants` | BlazorEcommerce/Client/Services/CartService/CartService.cs:38 | two variants of one product become two lines, in the order they were added |
| `LocalCart.MergeExample` | BlazorEcommerce/Client/Services/CartService/CartService.cs:38-46 | [{P1,T1,2}] plus {P1,T1,3} is [{P1,T1,5}] with a count of 1 |
| `LocalCart.RemoveUndoesFreshAdd` | BlazorEcommerce/Client/Services/CartService/CartService.cs:110-127 | removing the key of a freshly added item gives back the original cart, with its count |
| `LocalCart.RemoveKeys` | BlazorEcommerce/Client/Services/CartService/CartService.cs:119-124 | on a cart with distinct keys, removal takes exactly that key out of the key set and keeps the keys distinct |
| `LocalCart.UpdateQuantityRemoves` | BlazorEcommerce/Client/Services/CartService/CartService.cs:151-167 | `UpdateQuantity` leaves the cart slot exactly as `RemoveProductFromCart` does |
| `LocalCart.CountStaysInSync` | BlazorEcommerce/Client/Services/CartService/CartService.cs:67-83 | add, remove and count refresh all keep the count slot equal to the number of lines |
| `LocalCart.UpdateQuantityLeavesCountStale` | BlazorEcommerce/Client/Services/CartService/CartService.cs:161-166 | a removal through `UpdateQuantity` leaves a count slot that no longer matches the cart |
| `LocalCart.TransferLeavesCountStale` | BlazorEcommerce/Client/Services/CartService/CartService.cs:145-148 | emptying the local cart on transfer leaves the old count behind |
| `LocalCart.AddThenPrice` | BlazorEcommerce/Client/Services/CartService/CartService.cs:94-103 | after adding a new, resolvable item, the anonymous priced view is the old view plus that item's row at the end |
| `Pricing.FindProduct` | BlazorEcommerce/Server/Services/CartService/CartService.cs:28-30 | None exactly when no product has the id, otherwise the first product that has it |
| `Pricing.FindVariant` | BlazorEcommerce/Server/Services/CartService/CartService.cs:36-40 | None exactly when no variant matches (ProductId, ProductTypeId), otherwise the first one that does |
| `Pricing.PriceItem` | BlazorEcommerce/Server/Services/CartService/CartService.cs:28-56 | a line is priced iff its product and its variant both exist; the row keeps the line's ProductId, ProductTypeId and Quantity |
| `Pricing.PriceItemCarries` | BlazorEcommerce/Server/Services/CartService/CartService.cs:47-56 | the row's Title and ImageUrl come from the first product with the id; its Price and ProductType come from the first matching variant |
| `Pricing.Resolve` | BlazorEcommerce/Server/Services/CartService/CartService.cs:19-63 | never more rows than input lines |
| `Pricing.ResolveAppend` | BlazorEcommerce/Server/Services/CartService/CartService.cs:26-58 | pricing a concatenation is the concatenation of the pricings: no reordering or aggregation across lines |
| `Pricing.Survivors` | BlazorEcommerce/Server/Services/CartService/CartService.cs:26-45 | the positions of the lines that survive, strictly increasing, containing exactly the lines whose product and variant both exist |
| `Pricing.SurvivorsCount` | BlazorEcommerce/Server/Services/CartService/CartService.cs:26-58 | the output has one row per surviving line |
| `Pricing.SurvivorRow` | BlazorEcommerce/Server/Services/CartService/CartService.cs:26-58 | output row j is the priced form of the j-th surviving line of a suffix of the input |
| `Pricing.ResolveFollowsSurvivors` | BlazorEcommerce/Server/Services/CartService/CartService.cs:26-58 | the output is exactly the priced surviving lines, in input order |
| `Pricing.SkipsUnresolvable` | BlazorEcommerce/Server/Services/CartService/CartService.cs:31-45 | a line with no product or no variant contributes nothing anywhere in the input and causes no error |
| `Pricing.NoAggregation` | BlazorEcommerce/Server/Services/CartService/CartService.cs:26-58 | two resolvable lines with the same key give two rows |
| `ServerCart.Stamp` | BlazorEcommerce/Server/Services/CartService/CartService.cs:98 | the stamped line belongs to the user and keeps its key and quantity |
| `ServerCart.StampAll` | BlazorEcommerce/Server/Services/CartService/CartService.cs:69 | every incoming line is stamped with the user, in order |
| `ServerCart.UserRows` | BlazorEcommerce/Server/Services/CartService/CartService.cs:93 | the rows selected all belong to the user and are no more than the table |
| `ServerCart.UserRowsCountOwned` | BlazorEcommerce/Server/Services/CartService/CartService.cs:87 | the user's rows number exactly the table positions the user owns |
| `ServerCart.GetCartItemsCount` | BlazorEcommerce/Server/Services/CartService/CartService.cs:85-89 | the count is the number of table positions whose UserId is the user |
| `ServerCart.GetCartProducts` | BlazorEcommerce/Server/Services/CartService/CartService.cs:19-63 | the pricing endpoint answers exactly one row per posted line whose product and variant both exist, so never more rows than posted lines |
| `ServerCart.GetDbCartProducts` | BlazorEcommerce/Server/Services/CartService/CartService.cs:91-94 | the user's priced view has no more rows than the user's count |
| `ServerCart.FindOwnRow` | BlazorEcommerce/Server/Services/CartService/CartService.cs:100-102 | None exactly when the user has no row with the key, otherwise the first such row of the table |
| `ServerCart.AddToCart` | BlazorEcommerce/Server/Services/CartService/CartService.cs:96-116 | always answers true; with no row of the user for the key, the stamped item is appended; otherwise only the first such row changes, its quantity increased, and the length is unchanged |
| `ServerCart.StoreCartItems` | BlazorEcommerce/Server/Services/CartService/CartService.cs:65-83 | the table grows by exactly the incoming lines, stamped, after an unchanged prefix; the answer is the user's priced view of the new table |
| `ServerCart.OtherUsersInvisible` | BlazorEcommerce/Server/Services/CartService/CartService.cs:87-93 | rows of other users change neither a user's count nor their priced view |
| `ServerCart.AddToCartOtherUsers` | BlazorEcommerce/Server/Services/CartService/CartService.cs:98-111 | `AddToCart` leaves every other user's rows as they were |
| `ServerCart.ResolveIgnoresOwner` | BlazorEcommerce/Server/Services/CartService/CartService.cs:28-56 | pricing does not depend on the owner column |
| `ServerCart.StoreCartItemsResponse` | BlazorEcommerce/Server/Services/CartService/CartService.cs:69-82 | the merge answer is the user's previous priced view followed by the priced incoming lines; the user's count grows by the number of incoming lines |
| `ServerCart.StoreCartItemsOtherUsers` | BlazorEcommerce/Server/Services/CartService/CartService.cs:69-72 | storing leaves every other user's rows as they were |
| `ServerCart.StoreCartItemsDuplicatesKeys` | BlazorEcommerce/Server/Services/CartService/CartService.cs:69-72 | storing a line whose key the user already has leaves two rows with that key when the table accepts repeated keys: the merge endpoint has no merge step |
| `Reconciliation.OwnRowsNoMatch` | BlazorEcommerce/Server/Services/CartService/CartService.cs:100-102 | the user's rows lack a key iff the table has no row of that user with that key |
| `Reconciliation.ServerAddMirrorsLocalMerge` | BlazorEcommerce/Server/Services/CartService/CartService.cs:98-111 | on the user's rows the server's add is exactly the client's add-with-merge of the stamped item |
| `Reconciliation.ServerAddPreservesDistinctKeys` | BlazorEcommerce/Server/Services/CartService/CartService.cs:100-111 | the user's keys stay pairwise distinct across a server add |
| `Reconciliation.ServerAddCount` | BlazorEcommerce/Server/Services/CartService/CartService.cs:104-111 | a server add raises the user's count by 1 for a new key and by 0 for a key the user already has |
| `Reconciliation.SignInTransfer` | BlazorEcommerce/Client/Services/CartService/CartService.cs:136-148 | after the client posts its cart and the server stores it, the table is the old table plus the stamped local lines, and the user's priced view is the old view followed by the anonymous priced view |

## Left out

- The signed-in branches of the client service (`AddToCart`, `GetCartItemsCount` and `GetCartProducts` when authenticated) are left out. They are HTTP calls to the server operations modelled here.
- The authentication check `IsUserAuthenticated` is left out. It queries a foreign authentication provider.
- The `OnChange` notifications are left out. They are UI events with no effect on cart state.
- Local-storage serialisation, EF Core change tracking, `Include` and `SaveChangesAsync` are left out. Storage is a value and the table is a sequence.
- The ProductType name is read through the variant's navigation property. The model stores it on the variant and assumes it is loaded.
- `GetUserId` parses the identity claim with `int.Parse`, which fails fatally without the claim. That is framework context, so the user id is a parameter.
- The anonymous `GetCartProducts` posts the list to the pricing endpoint. The model calls the resolver directly and does not model the HTTP round trip.
- `ServiceResponse` keeps only its payload. Its `Success` and `Message` fields are not in this model.
- Price is a C# `decimal`, modelled as `real`. It is only copied, never computed with.
- Product, type and user ids are C# `int`, modelled as `int`. They are only compared.
- The client stores the caller's `CartItem` object itself. Object aliasing is not visible in a value model.
- Concurrent requests on the same user's rows, which can lose updates, are not modelled. Each operation is one sequential step.
- The controller, the database migration, the product and category service interfaces and the registration DTO are not modelled. They are routing, schema, declarations and plain data.
- None of the database reads has an `ORDER BY` (the product, variant and own-row look-ups and the per-user row lists), so the database promises no row order. The model reads every such query in insertion order, which the source does not guarantee. These order claims rest on that assumption: which first match `Pricing.FindProduct`, `Pricing.FindVariant`, `ServerCart.FindOwnRow` and `ServerCart.AddToCart` pick; the row order of `ServerCart.UserRows` and `ServerCart.GetDbCartProducts`; and "old view followed by the new lines" in `ServerCart.StoreCartItemsResponse` and `Reconciliation.SignInTransfer`.
- The `CartItems` table's key is configured in the database context, which is not part of this model. The model assumes no unique key on (UserId, ProductId, ProductTypeId), so `ServerCart.StoreCartItems` appends repeated keys. If the table is keyed on that triple, `AddRange` fails on two incoming lines with one key and `SaveChangesAsync` fails on a key the user already has, and nothing is stored. That failure path is not modelled, and `ServerCart.StoreCartItemsDuplicatesKeys` holds only under the assumption.
- ServerCart.GetCartProducts: the contract gives the row count, one per line whose product and variant exist. Which rows come back, and in what order, is stated by `Pricing.ResolveFollowsSurvivors` and `Pricing.ResolveAppend` about the resolver it returns.
- Pricing.Resolve: the contract gives only the row bound. Which rows appear, and in what order, is stated by `Pricing.ResolveFollowsSurvivors` and `Pricing.ResolveAppend`.
- LocalCart.GetCartProducts: the contract gives only the empty case and the row bound. What the rows are is stated by `Pricing.ResolveFollowsSurvivors` and `LocalCart.AddThenPrice`.
- ServerCart.GetDbCartProducts: the contract gives only the bound by the user's count. Its content is stated by `ServerCart.OtherUsersInvisible` and `ServerCart.StoreCartItemsResponse`.
- ServerCart.UserRows: the contract gives ownership and the length bound. That the rows keep table order and are all of the user's rows is stated by `ServerCart.UserRowsCountOwned` and the append lemmas.
