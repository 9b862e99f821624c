/** The server cart service over the multi-user cart table. The current user's id, which the
    service reads from the request's identity claim, is a parameter here. */
module ServerCart {
  import opened Wrappers
  import opened CartItems
  import opened Pricing

  /** The response envelope; only its payload is modelled. */
  datatype ServiceResponse<T> = ServiceResponse(data: T)

  /** The cart table after an operation has saved its changes, and what it answers. */
  datatype Committed<T> = Committed(table: seq<CartItem>, response: ServiceResponse<T>)

  /** The line handed over to the current user. */
  function Stamp(item: CartItem, userId: int): (r: CartItem)
    ensures r.userId == userId && KeyOf(r) == KeyOf(item) && r.quantity == item.quantity
  {
    item.(userId := userId)
  }

  /** Every incoming line handed over to the current user, in order. */
  function StampAll(items: seq<CartItem>, userId: int): (r: seq<CartItem>)
    ensures |r| == |items|
    ensures forall i | 0 <= i < |items| :: r[i] == Stamp(items[i], userId)
  {
    if |items| == 0 then [] else [Stamp(items[0], userId)] + StampAll(items[1..], userId)
  }

  /** The rows that belong to the user, taken in the model's table order (insertion order). */
  function UserRows(table: seq<CartItem>, userId: int): (rows: seq<CartItem>)
    ensures |rows| <= |table|
    ensures forall j | 0 <= j < |rows| :: rows[j].userId == userId
  {
    if |table| == 0 then []
    else
      var rest := UserRows(table[1..], userId);
      if table[0].userId == userId then [table[0]] + rest else rest
  }

  lemma {:induction false} UserRowsAppend(a: seq<CartItem>, b: seq<CartItem>, userId: int)
    ensures UserRows(a + b, userId) == UserRows(a, userId) + UserRows(b, userId)
  {
    if |a| == 0 {
      assert a + b == b;
    } else {
      assert (a + b)[1..] == a[1..] + b;
      assert (a + b)[0] == a[0];
      UserRowsAppend(a[1..], b, userId);
    }
  }

  lemma UserRowsSplit(a: seq<CartItem>, row: CartItem, b: seq<CartItem>, userId: int)
    requires row.userId == userId
    ensures UserRows(a + [row] + b, userId) == UserRows(a, userId) + [row] + UserRows(b, userId)
  {
    UserRowsAppend(a + [row], b, userId);
    UserRowsAppend(a, [row], userId);
    assert [row][1..] == [];
  }

  lemma UserRowsSkip(a: seq<CartItem>, row: CartItem, b: seq<CartItem>, userId: int)
    requires row.userId != userId
    ensures UserRows(a + [row] + b, userId) == UserRows(a, userId) + UserRows(b, userId)
  {
    UserRowsAppend(a + [row], b, userId);
    UserRowsAppend(a, [row], userId);
    assert [row][1..] == [];
    assert UserRows([row], userId) == [];
  }

  /** The positions of the rows owned by `userId`. */
  function OwnedIndices(table: seq<CartItem>, userId: int): set<nat> {
    set j: nat | j < |table| && table[j].userId == userId
  }

  lemma {:induction false} UserRowsCountOwned(table: seq<CartItem>, userId: int)
    ensures |UserRows(table, userId)| == |OwnedIndices(table, userId)|
    decreases |table|
  {
    if |table| > 0 {
      var n := |table| - 1;
      var p := table[..n];
      var x := table[n];
      assert table == p + [x];
      UserRowsAppend(p, [x], userId);
      UserRowsCountOwned(p, userId);
      assert [x][1..] == [];
      if x.userId == userId {
        assert OwnedIndices(table, userId) == OwnedIndices(p, userId) + {n};
      } else {
        assert OwnedIndices(table, userId) == OwnedIndices(p, userId);
      }
    }
  }

  /** `GetCartItemsCount`: the number of table rows that belong to the user. */
  function GetCartItemsCount(table: seq<CartItem>, userId: int): (r: ServiceResponse<int>)
    ensures r.data == |OwnedIndices(table, userId)|
  {
    UserRowsCountOwned(table, userId);
    ServiceResponse(|UserRows(table, userId)|)
  }

  /** `GetCartProducts(cartItems)`: the pricing endpoint, with no persistence. It answers one
      row for each posted line whose product and variant both exist, and no other. */
  function GetCartProducts(items: seq<CartItem>, catalog: Catalog): (r: ServiceResponse<seq<CartProductResponse>>)
    ensures |r.data| <= |items|
    ensures |r.data| == |Survivors(items, catalog, 0)|
  {
    assert items[0..] == items;
    SurvivorsCount(items, catalog, 0);
    ServiceResponse(Resolve(items, catalog))
  }

  /** `GetDbCartProducts`: the priced view of the user's own rows, in the model's table order. */
  function GetDbCartProducts(table: seq<CartItem>, userId: int, catalog: Catalog)
    : (r: ServiceResponse<seq<CartProductResponse>>)
    ensures |r.data| <= GetCartItemsCount(table, userId).data
  {
    GetCartProducts(UserRows(table, userId), catalog)
  }

  predicate IsOwnRow(row: CartItem, userId: int, k: Key) {
    row.userId == userId && HasKey(row, k)
  }

  predicate NoOwnRow(table: seq<CartItem>, userId: int, k: Key) {
    forall j | 0 <= j < |table| :: !IsOwnRow(table[j], userId, k)
  }

  /** `i` is the first row, in the model's table order, of this user with this key. */
  predicate IsFirstOwnRow(table: seq<CartItem>, i: int, userId: int, k: Key) {
    && 0 <= i < |table|
    && IsOwnRow(table[i], userId, k)
    && forall j | 0 <= j < i :: !IsOwnRow(table[j], userId, k)
  }

  lemma NoOwnRowCons(table: seq<CartItem>, userId: int, k: Key)
    requires |table| > 0
    ensures NoOwnRow(table, userId, k) <==> !IsOwnRow(table[0], userId, k) && NoOwnRow(table[1..], userId, k)
  {
    assert forall j | 1 <= j < |table| :: table[j] == table[1..][j - 1];
  }

  function FindOwnRow(table: seq<CartItem>, userId: int, k: Key): (r: Option<nat>)
    ensures r.None? <==> NoOwnRow(table, userId, k)
    ensures r.Some? ==> IsFirstOwnRow(table, r.value, userId, k)
  {
    if |table| == 0 then None
    else if IsOwnRow(table[0], userId, k) then Some(0)
    else match FindOwnRow(table[1..], userId, k)
      case None => None
      case Some(i) => Some(i + 1)
  }

  /** `AddToCart`: stamps the item with the user; the user's first row with the same key has
      its quantity increased (32-bit wrap-around), otherwise the stamped item is appended.
      The answer is always true. */
  function AddToCart(table: seq<CartItem>, userId: int, item: CartItem): (c: Committed<bool>)
    ensures c.response.data
    ensures NoOwnRow(table, userId, KeyOf(item)) ==> c.table == table + [Stamp(item, userId)]
    ensures forall i | IsFirstOwnRow(table, i, userId, KeyOf(item)) ::
      && |c.table| == |table|
      && c.table[i] == table[i].(quantity := AddQuantity(table[i].quantity, item.quantity))
      && forall j | 0 <= j < |table| && j != i :: c.table[j] == table[j]
  {
    var stamped := Stamp(item, userId);
    match FindOwnRow(table, userId, KeyOf(stamped))
    case None => Committed(table + [stamped], ServiceResponse(true))
    case Some(i) =>
      var row := table[i].(quantity := AddQuantity(table[i].quantity, stamped.quantity));
      Committed(table[i := row], ServiceResponse(true))
  }

  /** `StoreCartItems`: every incoming item is stamped with the user and appended, with no
      merging against rows already there (the table is taken to accept repeated keys); the answer is the user's priced view afterwards. */
  function StoreCartItems(table: seq<CartItem>, userId: int, items: seq<CartItem>, catalog: Catalog)
    : (c: Committed<seq<CartProductResponse>>)
    ensures |c.table| == |table| + |items|
    ensures c.table[..|table|] == table
    ensures forall i | 0 <= i < |items| :: c.table[|table| + i] == Stamp(items[i], userId)
    ensures c.response == GetDbCartProducts(c.table, userId, catalog)
  {
    var table' := table + StampAll(items, userId);
    assert table'[..|table|] == table;
    Committed(table', GetDbCartProducts(table', userId, catalog))
  }

  // ----- Properties -----

  lemma {:induction false} NotOwnedFilteredOut(others: seq<CartItem>, userId: int)
    requires forall j | 0 <= j < |others| :: others[j].userId != userId
    ensures UserRows(others, userId) == []
  {
    if |others| > 0 {
      assert forall j | 0 <= j < |others[1..]| :: others[1..][j] == others[j + 1];
      NotOwnedFilteredOut(others[1..], userId);
    }
  }

  /** Rows of other users never show up in a user's priced view or count. */
  lemma OtherUsersInvisible(table: seq<CartItem>, others: seq<CartItem>, userId: int, catalog: Catalog)
    requires forall j | 0 <= j < |others| :: others[j].userId != userId
    ensures GetDbCartProducts(table + others, userId, catalog) == GetDbCartProducts(table, userId, catalog)
    ensures GetCartItemsCount(table + others, userId) == GetCartItemsCount(table, userId)
  {
    UserRowsAppend(table, others, userId);
    NotOwnedFilteredOut(others, userId);
    assert UserRows(table, userId) + [] == UserRows(table, userId);
  }

  /** `AddToCart` leaves every other user's rows, and so their count and view, as they were. */
  lemma {:induction false} AddToCartOtherUsers(table: seq<CartItem>, userId: int, item: CartItem, other: int)
    requires other != userId
    ensures UserRows(AddToCart(table, userId, item).table, other) == UserRows(table, other)
  {
    match FindOwnRow(table, userId, KeyOf(item))
    case None =>
      UserRowsAppend(table, [Stamp(item, userId)], other);
      assert [Stamp(item, userId)][1..] == [];
    case Some(i) =>
      var row := table[i].(quantity := AddQuantity(table[i].quantity, item.quantity));
      var a := table[..i];
      var b := table[i + 1..];
      assert AddToCart(table, userId, item).table == a + [row] + b;
      assert table == a + [table[i]] + b;
      UserRowsSkip(a, table[i], b, other);
      UserRowsSkip(a, row, b, other);
  }

  /** Pricing ignores the owner column. */
  lemma {:induction false} ResolveIgnoresOwner(items: seq<CartItem>, userId: int, catalog: Catalog)
    ensures Resolve(StampAll(items, userId), catalog) == Resolve(items, catalog)
  {
    if |items| > 0 {
      var s := StampAll(items, userId);
      assert s[1..] == StampAll(items[1..], userId);
      ResolveIgnoresOwner(items[1..], userId, catalog);
      assert PriceItem(s[0], catalog) == PriceItem(items[0], catalog);
    }
  }

  lemma {:induction false} StampedAllOwned(items: seq<CartItem>, userId: int)
    ensures UserRows(StampAll(items, userId), userId) == StampAll(items, userId)
  {
    if |items| > 0 {
      var s := StampAll(items, userId);
      assert s[1..] == StampAll(items[1..], userId);
      StampedAllOwned(items[1..], userId);
    }
  }

  /** The merge endpoint answers the user's previous priced view followed by the priced
      incoming items, and the user's count grows by the number of incoming items. */
  lemma StoreCartItemsResponse(table: seq<CartItem>, userId: int, items: seq<CartItem>, catalog: Catalog)
    ensures StoreCartItems(table, userId, items, catalog).response.data
            == GetDbCartProducts(table, userId, catalog).data + Resolve(items, catalog)
    ensures GetCartItemsCount(StoreCartItems(table, userId, items, catalog).table, userId).data
            == GetCartItemsCount(table, userId).data + |items|
  {
    var stamped := StampAll(items, userId);
    UserRowsAppend(table, stamped, userId);
    StampedAllOwned(items, userId);
    ResolveAppend(UserRows(table, userId), stamped, catalog);
    ResolveIgnoresOwner(items, userId, catalog);
    UserRowsCountOwned(table, userId);
    UserRowsCountOwned(table + stamped, userId);
  }

  /** `StoreCartItems` leaves every other user's rows as they were. */
  lemma StoreCartItemsOtherUsers(table: seq<CartItem>, userId: int, items: seq<CartItem>, catalog: Catalog, other: int)
    requires other != userId
    ensures UserRows(StoreCartItems(table, userId, items, catalog).table, other) == UserRows(table, other)
  {
    var stamped := StampAll(items, userId);
    OtherUsersInvisible(table, stamped, other, catalog);
    UserRowsAppend(table, stamped, other);
  }

  /** Unlike `AddToCart`, the merge endpoint does not merge: storing an item whose key the
      user already has leaves the user with two lines for that key. */
  lemma StoreCartItemsDuplicatesKeys(catalog: Catalog)
    ensures var c := StoreCartItems([CartItem(7, 1, 1, 1)], 7, [CartItem(0, 1, 1, 2)], catalog);
            UserRows(c.table, 7) == [CartItem(7, 1, 1, 1), CartItem(7, 1, 1, 2)]
            && !DistinctKeys(UserRows(c.table, 7))
  {
    var c := StoreCartItems([CartItem(7, 1, 1, 1)], 7, [CartItem(0, 1, 1, 2)], catalog);
    assert c.table == [CartItem(7, 1, 1, 1), CartItem(7, 1, 1, 2)];
    UserRowsAppend([CartItem(7, 1, 1, 1)], [CartItem(7, 1, 1, 2)], 7);
    assert [CartItem(7, 1, 1, 1)] + [CartItem(7, 1, 1, 2)] == c.table;
  }
}
