/** How the two mirrored cart managers relate: the server's add-with-merge acts on one user's
    rows exactly as the client's add-with-merge acts on the local list, and the sign-in
    transfer moves the local list into the table. */
module Reconciliation {
  import opened Wrappers
  import opened CartItems
  import opened Pricing
  import LocalCart
  import ServerCart

  /** The user's rows contain a key iff the table holds a row of that user with that key. */
  lemma {:induction false} OwnRowsNoMatch(table: seq<CartItem>, userId: int, k: Key)
    ensures NoMatch(ServerCart.UserRows(table, userId), k) <==> ServerCart.NoOwnRow(table, userId, k)
  {
    if |table| > 0 {
      OwnRowsNoMatch(table[1..], userId, k);
      ServerCart.NoOwnRowCons(table, userId, k);
      var rest := ServerCart.UserRows(table[1..], userId);
      if table[0].userId == userId {
        NoMatchCons(table[0], rest, k);
      }
    }
  }

  /** On the signed-in user's rows, the server's `AddToCart` is the client's add-with-merge of
      the stamped item. */
  lemma ServerAddMirrorsLocalMerge(table: seq<CartItem>, userId: int, item: CartItem)
    ensures ServerCart.UserRows(ServerCart.AddToCart(table, userId, item).table, userId)
            == LocalCart.Merge(ServerCart.UserRows(table, userId), ServerCart.Stamp(item, userId))
  {
    match ServerCart.FindOwnRow(table, userId, KeyOf(item))
    case None => MirrorNewKey(table, userId, item);
    case Some(i) => MirrorExistingKey(table, userId, item, i);
  }

  lemma MirrorNewKey(table: seq<CartItem>, userId: int, item: CartItem)
    requires ServerCart.NoOwnRow(table, userId, KeyOf(item))
    ensures ServerCart.UserRows(ServerCart.AddToCart(table, userId, item).table, userId)
            == LocalCart.Merge(ServerCart.UserRows(table, userId), ServerCart.Stamp(item, userId))
  {
    var stamped := ServerCart.Stamp(item, userId);
    OwnRowsNoMatch(table, userId, KeyOf(item));
    ServerCart.UserRowsAppend(table, [stamped], userId);
    assert [stamped][1..] == [];
    assert ServerCart.UserRows([stamped], userId) == [stamped];
  }

  lemma MirrorExistingKey(table: seq<CartItem>, userId: int, item: CartItem, i: nat)
    requires ServerCart.IsFirstOwnRow(table, i, userId, KeyOf(item))
    ensures ServerCart.UserRows(ServerCart.AddToCart(table, userId, item).table, userId)
            == LocalCart.Merge(ServerCart.UserRows(table, userId), ServerCart.Stamp(item, userId))
  {
    var stamped := ServerCart.Stamp(item, userId);
    var row := table[i].(quantity := AddQuantity(table[i].quantity, item.quantity));
    var a := table[..i];
    var b := table[i + 1..];
    assert ServerCart.AddToCart(table, userId, item).table == a + [row] + b by {
      assert ServerCart.FindOwnRow(table, userId, KeyOf(item)) == Some(i);
    }
    assert table == a + [table[i]] + b;
    ServerCart.UserRowsSplit(a, table[i], b, userId);
    ServerCart.UserRowsSplit(a, row, b, userId);
    assert ServerCart.NoOwnRow(a, userId, KeyOf(item));
    OwnRowsNoMatch(a, userId, KeyOf(item));
    LocalCart.MergeAtFirstMatch(ServerCart.UserRows(a, userId), table[i], ServerCart.UserRows(b, userId), stamped);
  }

  /** The server's add keeps the user's keys distinct, exactly as the client's add does. */
  lemma ServerAddPreservesDistinctKeys(table: seq<CartItem>, userId: int, item: CartItem)
    requires DistinctKeys(ServerCart.UserRows(table, userId))
    ensures DistinctKeys(ServerCart.UserRows(ServerCart.AddToCart(table, userId, item).table, userId))
  {
    ServerAddMirrorsLocalMerge(table, userId, item);
    LocalCart.MergePreservesDistinctKeys(ServerCart.UserRows(table, userId), ServerCart.Stamp(item, userId));
  }

  /** The server's add raises the user's count by one for a new key and leaves it unchanged
      for a key the user already has. */
  lemma ServerAddCount(table: seq<CartItem>, userId: int, item: CartItem)
    ensures ServerCart.GetCartItemsCount(ServerCart.AddToCart(table, userId, item).table, userId).data
            == ServerCart.GetCartItemsCount(table, userId).data
               + (if ServerCart.NoOwnRow(table, userId, KeyOf(item)) then 1 else 0)
  {
    var own := ServerCart.UserRows(table, userId);
    var stamped := ServerCart.Stamp(item, userId);
    ServerAddMirrorsLocalMerge(table, userId, item);
    OwnRowsNoMatch(table, userId, KeyOf(item));
    ServerCart.UserRowsCountOwned(table, userId);
    ServerCart.UserRowsCountOwned(ServerCart.AddToCart(table, userId, item).table, userId);
    match FindItem(own, KeyOf(stamped))
    case None =>
    case Some(m) =>
      assert IsFirstMatch(own, m, KeyOf(stamped));
  }

  /** Signing in with a local cart: the client posts its list (clearing it if asked) and the
      server appends it to the user's rows; the user's priced view becomes the previous view
      followed by what the anonymous priced view was. */
  lemma SignInTransfer(s: LocalCart.LocalStorage, emptyLocalCart: bool,
                       table: seq<CartItem>, userId: int, catalog: Catalog)
    requires s.cart.Some?
    ensures var t := LocalCart.StoreCartItems(s, emptyLocalCart);
            var c := ServerCart.StoreCartItems(table, userId, t.posted.value, catalog);
            && c.table == table + ServerCart.StampAll(s.cart.value, userId)
            && c.response.data == ServerCart.GetDbCartProducts(table, userId, catalog).data
                                  + LocalCart.GetCartProducts(s, catalog)
  {
    var c := ServerCart.StoreCartItems(table, userId, s.cart.value, catalog);
    ServerCart.StoreCartItemsResponse(table, userId, s.cart.value, catalog);
    assert c.table == table + ServerCart.StampAll(s.cart.value, userId);
  }
}
