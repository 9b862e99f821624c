/** The anonymous (not signed in) branches of the client cart service. The cart lives in a
    browser local-storage slot that may be absent, and a second slot caches its item count. */
module LocalCart {
  import opened Wrappers
  import opened CartItems
  import opened Pricing

  /** The two local-storage slots: "cart" (absent until the first add) and "cartItemsCount". */
  datatype LocalStorage = LocalStorage(cart: Option<seq<CartItem>>, cartItemsCount: int)

  /** The count slot agrees with the cart slot: the number of lines, 0 when there is no cart. */
  predicate CountInSync(s: LocalStorage) {
    s.cartItemsCount == if s.cart.None? then 0 else |s.cart.value|
  }

  /** Add-with-merge on a loaded list: the first line with the item's key has its quantity
      increased (with 32-bit wrap-around); without such a line the item is appended. */
  function Merge(cart: seq<CartItem>, item: CartItem): (r: seq<CartItem>)
    ensures NoMatch(cart, KeyOf(item)) ==> r == cart + [item]
    ensures forall i | IsFirstMatch(cart, i, KeyOf(item)) ::
      && |r| == |cart|
      && r[i] == cart[i].(quantity := AddQuantity(cart[i].quantity, item.quantity))
      && forall j | 0 <= j < |cart| && j != i :: r[j] == cart[j]
  {
    match FindItem(cart, KeyOf(item))
    case None => cart + [item]
    case Some(i) => cart[i := cart[i].(quantity := AddQuantity(cart[i].quantity, item.quantity))]
  }

  /** `GetCartItemsCount`, anonymous branch: refreshes the count slot from the cart slot. */
  function GetCartItemsCount(s: LocalStorage): (r: LocalStorage)
    ensures r.cart == s.cart
    ensures CountInSync(r)
  {
    s.(cartItemsCount := if s.cart.None? then 0 else |s.cart.value|)
  }

  /** `AddToCart`, anonymous branch: an absent cart is taken as empty, the item is merged in,
      the list is stored back and the count slot is refreshed. */
  function AddToCart(s: LocalStorage, item: CartItem): (r: LocalStorage)
    ensures s.cart.None? ==> r.cart == Some([item])
    ensures s.cart.Some? ==> r.cart == Some(Merge(s.cart.value, item))
    ensures CountInSync(r)
  {
    var cart := Merge(if s.cart.Some? then s.cart.value else [], item);
    assert s.cart.None? ==> cart == [] + [item] == [item];
    GetCartItemsCount(s.(cart := Some(cart)))
  }

  /** `RemoveProductFromCart`: removes the first line with the key and refreshes the count;
      a missing cart or a missing line leaves both slots untouched. */
  function RemoveProductFromCart(s: LocalStorage, productId: int, productTypeId: int): (r: LocalStorage)
    ensures s.cart.None? ==> r == s
    ensures s.cart.Some? && NoMatch(s.cart.value, Key(productId, productTypeId)) ==> r == s
    ensures s.cart.Some? ==> forall i | IsFirstMatch(s.cart.value, i, Key(productId, productTypeId)) ::
      r.cart == Some(RemoveAt(s.cart.value, i)) && CountInSync(r)
  {
    match s.cart
    case None => s
    case Some(cart) =>
      match FindItem(cart, Key(productId, productTypeId))
      case None => s
      case Some(i) => GetCartItemsCount(s.(cart := Some(RemoveAt(cart, i))))
  }

  /** `UpdateQuantity`: despite its name it removes the first line with the product's key,
      and it does not refresh the count slot. */
  function UpdateQuantity(s: LocalStorage, product: CartProductResponse): (r: LocalStorage)
    ensures r.cartItemsCount == s.cartItemsCount
    ensures s.cart.None? ==> r == s
    ensures s.cart.Some? && NoMatch(s.cart.value, Key(product.productId, product.productTypeId)) ==> r == s
    ensures s.cart.Some? ==>
      forall i | IsFirstMatch(s.cart.value, i, Key(product.productId, product.productTypeId)) ::
        r.cart == Some(RemoveAt(s.cart.value, i))
  {
    match s.cart
    case None => s
    case Some(cart) =>
      match FindItem(cart, Key(product.productId, product.productTypeId))
      case None => s
      case Some(i) => s.(cart := Some(RemoveAt(cart, i)))
  }

  /** What `StoreCartItems` leaves behind and what it posts to the server's merge endpoint. */
  datatype Transfer = Transfer(storage: LocalStorage, posted: Option<seq<CartItem>>)

  /** `StoreCartItems(emptyLocalCart)`: posts the whole local list (nothing when there is no
      cart) and deletes the cart slot when asked to; the count slot is not touched. */
  function StoreCartItems(s: LocalStorage, emptyLocalCart: bool): (r: Transfer)
    ensures r.posted == s.cart
    ensures r.storage.cartItemsCount == s.cartItemsCount
    ensures s.cart.None? || !emptyLocalCart ==> r.storage == s
    ensures s.cart.Some? ==> (r.storage.cart.None? <==> emptyLocalCart)
  {
    match s.cart
    case None => Transfer(s, None)
    case Some(cart) =>
      Transfer(if emptyLocalCart then s.(cart := None) else s, Some(cart))
  }

  /** `GetCartProducts`, anonymous branch: no cart prices as nothing; otherwise the stored
      list is priced by the server's resolver. */
  function GetCartProducts(s: LocalStorage, catalog: Catalog): (rows: seq<CartProductResponse>)
    ensures s.cart.None? ==> rows == []
    ensures s.cart.Some? ==> |rows| <= |s.cart.value|
  {
    match s.cart
    case None => []
    case Some(cart) => Resolve(cart, catalog)
  }

  // ----- Properties -----

  /** Adding to an absent cart gives a one-line cart and a count of 1. */
  lemma AddToAbsentCart(n: int, item: CartItem)
    ensures AddToCart(LocalStorage(None, n), item) == LocalStorage(Some([item]), 1)
  {
  }

  /** Adding a new key grows the cart by exactly one line, at the end; the count follows. */
  lemma AddNewKey(s: LocalStorage, item: CartItem)
    requires s.cart.Some? && NoMatch(s.cart.value, KeyOf(item))
    ensures AddToCart(s, item).cart.value[..|s.cart.value|] == s.cart.value
    ensures |AddToCart(s, item).cart.value| == |s.cart.value| + 1
    ensures AddToCart(s, item).cartItemsCount == |s.cart.value| + 1
  {
    assert (s.cart.value + [item])[..|s.cart.value|] == s.cart.value;
  }

  /** Adding a key that is present changes neither the number of lines nor the count: the
      count counts lines, not the summed quantity. */
  lemma AddExistingKey(s: LocalStorage, item: CartItem)
    requires s.cart.Some? && !NoMatch(s.cart.value, KeyOf(item))
    ensures |AddToCart(s, item).cart.value| == |s.cart.value|
    ensures AddToCart(s, item).cartItemsCount == |s.cart.value|
  {
    var i := FindItem(s.cart.value, KeyOf(item)).value;
    assert IsFirstMatch(s.cart.value, i, KeyOf(item));
  }

  /** The keys after an add are the keys before plus the item's key. */
  lemma MergeKeys(cart: seq<CartItem>, item: CartItem)
    ensures KeysOf(Merge(cart, item)) == KeysOf(cart) + {KeyOf(item)}
  {
    var r := Merge(cart, item);
    match FindItem(cart, KeyOf(item))
    case None =>
      assert r == cart + [item];
    case Some(i) =>
      assert IsFirstMatch(cart, i, KeyOf(item));
      forall k | k in KeysOf(cart)
        ensures k in KeysOf(r)
      {
        var c :| c in cart && KeyOf(c) == k;
        var j :| 0 <= j < |cart| && cart[j] == c;
        assert KeyOf(r[j]) == k;
      }
      forall k | k in KeysOf(r)
        ensures k in KeysOf(cart)
      {
        var c :| c in r && KeyOf(c) == k;
        var j :| 0 <= j < |r| && r[j] == c;
        assert KeyOf(cart[j]) == k;
      }
      assert KeyOf(r[i]) == KeyOf(item);
  }

  /** Merging into `a + [x] + b`, where `x` is the first line with the item's key. */
  lemma MergeAtFirstMatch(a: seq<CartItem>, x: CartItem, b: seq<CartItem>, item: CartItem)
    requires NoMatch(a, KeyOf(item)) && HasKey(x, KeyOf(item))
    ensures Merge(a + [x] + b, item) == a + [x.(quantity := AddQuantity(x.quantity, item.quantity))] + b
  {
    var cart := a + [x] + b;
    assert IsFirstMatch(cart, |a|, KeyOf(item));
    var r := Merge(cart, item);
    var e := a + [x.(quantity := AddQuantity(x.quantity, item.quantity))] + b;
    assert |r| == |e|;
    forall j | 0 <= j < |r|
      ensures r[j] == e[j]
    {
      if j != |a| {
        assert r[j] == cart[j];
      }
    }
  }

  /** Distinct keys before an add stay distinct after it. */
  lemma MergePreservesDistinctKeys(cart: seq<CartItem>, item: CartItem)
    requires DistinctKeys(cart)
    ensures DistinctKeys(Merge(cart, item))
  {
    var r := Merge(cart, item);
    match FindItem(cart, KeyOf(item))
    case None =>
      assert r == cart + [item];
      forall i, j | 0 <= i < j < |r|
        ensures KeyOf(r[i]) != KeyOf(r[j])
      {
        if j == |cart| {
          assert !HasKey(cart[i], KeyOf(item));
        }
      }
    case Some(m) =>
      assert IsFirstMatch(cart, m, KeyOf(item));
      forall i, j | 0 <= i < j < |r|
        ensures KeyOf(r[i]) != KeyOf(r[j])
      {
        assert KeyOf(r[i]) == KeyOf(cart[i]) && KeyOf(r[j]) == KeyOf(cart[j]);
      }
  }

  /** Adding one key twice, to a cart without it, gives one line holding both quantities. */
  lemma MergeTwice(cart: seq<CartItem>, x: CartItem, y: CartItem)
    requires NoMatch(cart, KeyOf(x)) && KeyOf(y) == KeyOf(x)
    ensures Merge(Merge(cart, x), y) == cart + [x.(quantity := AddQuantity(x.quantity, y.quantity))]
  {
    var c1 := cart + [x];
    assert Merge(cart, x) == c1;
    assert IsFirstMatch(c1, |cart|, KeyOf(y));
  }

  /** Two variants of one product are kept as two lines. */
  lemma MergeTwoVariants(cart: seq<CartItem>, x: CartItem, y: CartItem)
    requires NoMatch(cart, KeyOf(x)) && NoMatch(cart, KeyOf(y))
    requires x.productId == y.productId && x.productTypeId != y.productTypeId
    ensures Merge(Merge(cart, x), y) == cart + [x, y]
  {
    var c1 := cart + [x];
    assert Merge(cart, x) == c1;
    assert NoMatch(c1, KeyOf(y));
  }

  /** Removing the key of a freshly added item restores the cart it was added to. */
  lemma RemoveUndoesFreshAdd(s: LocalStorage, item: CartItem)
    requires s.cart.Some? && NoMatch(s.cart.value, KeyOf(item))
    ensures RemoveProductFromCart(AddToCart(s, item), item.productId, item.productTypeId)
            == LocalStorage(s.cart, |s.cart.value|)
  {
    var c := s.cart.value;
    var c1 := c + [item];
    assert AddToCart(s, item).cart == Some(c1);
    assert IsFirstMatch(c1, |c|, KeyOf(item));
    assert RemoveAt(c1, |c|) == c;
  }

  /** On a cart with distinct keys, removal takes the key out and keeps the others distinct. */
  lemma RemoveKeys(s: LocalStorage, productId: int, productTypeId: int)
    requires s.cart.Some? && DistinctKeys(s.cart.value)
    ensures RemoveProductFromCart(s, productId, productTypeId).cart.Some?
    ensures KeysOf(RemoveProductFromCart(s, productId, productTypeId).cart.value)
            == KeysOf(s.cart.value) - {Key(productId, productTypeId)}
    ensures DistinctKeys(RemoveProductFromCart(s, productId, productTypeId).cart.value)
  {
    var c := s.cart.value;
    var k := Key(productId, productTypeId);
    var r := RemoveProductFromCart(s, productId, productTypeId).cart.value;
    match FindItem(c, k)
    case None =>
      assert r == c;
      forall x | x in c
        ensures KeyOf(x) != k
      {
        var j :| 0 <= j < |c| && c[j] == x;
        assert !HasKey(c[j], k);
      }
    case Some(i) =>
      assert IsFirstMatch(c, i, k);
      assert r == RemoveAt(c, i);
      forall x | x in r
        ensures KeyOf(x) in KeysOf(c) && KeyOf(x) != k
      {
        var j :| 0 <= j < |r| && r[j] == x;
        if j < i {
          assert r[j] == c[j];
        } else {
          assert r[j] == c[j + 1];
        }
      }
      forall x | x in c && KeyOf(x) != k
        ensures KeyOf(x) in KeysOf(r)
      {
        var j :| 0 <= j < |c| && c[j] == x;
        if j < i {
          assert r[j] == c[j];
        } else {
          assert j != i;
          assert r[j - 1] == c[j];
        }
      }
      forall a, b | 0 <= a < b < |r|
        ensures KeyOf(r[a]) != KeyOf(r[b])
      {
        var a' := if a < i then a else a + 1;
        var b' := if b < i then b else b + 1;
        assert r[a] == c[a'] && r[b] == c[b'];
      }
  }

  /** `UpdateQuantity` does to the cart slot exactly what `RemoveProductFromCart` does. */
  lemma UpdateQuantityRemoves(s: LocalStorage, product: CartProductResponse)
    ensures UpdateQuantity(s, product).cart
            == RemoveProductFromCart(s, product.productId, product.productTypeId).cart
  {
  }

  /** Adding, removing and refreshing the count keep the count slot in sync. */
  lemma CountStaysInSync(s: LocalStorage, item: CartItem, productId: int, productTypeId: int)
    requires CountInSync(s)
    ensures CountInSync(AddToCart(s, item))
    ensures CountInSync(RemoveProductFromCart(s, productId, productTypeId))
    ensures CountInSync(GetCartItemsCount(s))
  {
    if s.cart.Some? {
      match FindItem(s.cart.value, Key(productId, productTypeId))
      case None =>
      case Some(i) =>
    }
  }

  /** `UpdateQuantity` can leave the count slot stale: one line removed, count still 1. */
  lemma UpdateQuantityLeavesCountStale()
    ensures var item := CartItem(0, 1, 1, 2);
            var s := LocalStorage(Some([item]), 1);
            var r := UpdateQuantity(s, CartProductResponse(1, "", "", 0.0, "", 1, 2));
            CountInSync(s) && !CountInSync(r)
  {
    var item := CartItem(0, 1, 1, 2);
    assert IsFirstMatch([item], 0, Key(1, 1));
  }

  /** Emptying the local cart on transfer leaves the old count behind. */
  lemma TransferLeavesCountStale()
    ensures var s := LocalStorage(Some([CartItem(0, 1, 1, 2)]), 1);
            CountInSync(s) && !CountInSync(StoreCartItems(s, true).storage)
  {
  }

  /** Example: [{P1,T1,qty 2}] plus {P1,T1,qty 3} is [{P1,T1,qty 5}] with a count of 1. */
  lemma MergeExample()
    ensures AddToCart(LocalStorage(Some([CartItem(0, 1, 1, 2)]), 1), CartItem(0, 1, 1, 3))
            == LocalStorage(Some([CartItem(0, 1, 1, 5)]), 1)
  {
    var cart := [CartItem(0, 1, 1, 2)];
    assert IsFirstMatch(cart, 0, Key(1, 1));
    assert AddQuantity(2, 3) == 5;
    var merged := Merge(cart, CartItem(0, 1, 1, 3));
    assert |merged| == 1 && merged[0] == CartItem(0, 1, 1, 5);
    assert merged == [CartItem(0, 1, 1, 5)];
  }

  /** Adding a fresh, resolvable item adds one priced row at the end of the local priced view. */
  lemma AddThenPrice(s: LocalStorage, item: CartItem, catalog: Catalog)
    requires s.cart.Some? && NoMatch(s.cart.value, KeyOf(item))
    requires PriceItem(item, catalog).Some?
    ensures GetCartProducts(AddToCart(s, item), catalog)
            == GetCartProducts(s, catalog) + [PriceItem(item, catalog).value]
  {
    ResolveAppend(s.cart.value, [item], catalog);
  }
}
