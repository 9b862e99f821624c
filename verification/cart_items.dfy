/** The cart line item shared by the client and the server, with the key matching both
    sides use to find an existing line, and the 32-bit arithmetic of its quantity. */
module CartItems {
  import opened Wrappers

  const MinInt32: int := -0x8000_0000
  const MaxInt32: int := 0x7FFF_FFFF
  const Modulus32: int := 0x1_0000_0000

  /** C#'s `int`. */
  type Int32 = x: int | MinInt32 <= x <= MaxInt32

  /** `a + b` on C# `int` in the default unchecked context: the one value of the signed
      32-bit range that is congruent to the exact sum modulo 2^32. */
  function AddQuantity(a: Int32, b: Int32): (r: Int32)
    ensures (r - (a + b)) % Modulus32 == 0
    ensures MinInt32 <= a + b <= MaxInt32 ==> r == a + b
  {
    var s := a + b;
    if s > MaxInt32 then s - Modulus32
    else if s < MinInt32 then s + Modulus32
    else s
  }

  /** One cart line. `userId` is 0 on the client and the owner's id in the server table. */
  datatype CartItem = CartItem(userId: int, productId: int, productTypeId: int, quantity: Int32)

  /** The identity of a line within one owner's cart. */
  datatype Key = Key(productId: int, productTypeId: int)

  function KeyOf(c: CartItem): Key {
    Key(c.productId, c.productTypeId)
  }

  /** The line carries both the product id and the product type id of `k`. */
  predicate HasKey(c: CartItem, k: Key) {
    c.productId == k.productId && c.productTypeId == k.productTypeId
  }

  predicate NoMatch(cart: seq<CartItem>, k: Key) {
    forall j | 0 <= j < |cart| :: !HasKey(cart[j], k)
  }

  lemma NoMatchCons(x: CartItem, rest: seq<CartItem>, k: Key)
    ensures NoMatch([x] + rest, k) <==> !HasKey(x, k) && NoMatch(rest, k)
  {
    var c := [x] + rest;
    if !HasKey(x, k) && NoMatch(rest, k) {
      forall j | 0 <= j < |c|
        ensures !HasKey(c[j], k)
      {
        if j > 0 {
          assert c[j] == rest[j - 1];
        }
      }
    }
    if NoMatch(c, k) {
      assert c[0] == x;
      forall j | 0 <= j < |rest|
        ensures !HasKey(rest[j], k)
      {
        assert rest[j] == c[j + 1];
      }
    }
  }

  /** `i` is the entry `List.Find` returns: the first one carrying key `k`. */
  predicate IsFirstMatch(cart: seq<CartItem>, i: int, k: Key) {
    && 0 <= i < |cart|
    && HasKey(cart[i], k)
    && forall j | 0 <= j < i :: !HasKey(cart[j], k)
  }

  /** The index of the first entry with key `k`, or None when there is none. */
  function FindItem(cart: seq<CartItem>, k: Key): (r: Option<nat>)
    ensures r.None? <==> NoMatch(cart, k)
    ensures r.Some? ==> IsFirstMatch(cart, r.value, k)
  {
    if |cart| == 0 then None
    else if HasKey(cart[0], k) then Some(0)
    else match FindItem(cart[1..], k)
      case None => None
      case Some(i) => Some(i + 1)
  }

  /** No two entries share a key. */
  predicate DistinctKeys(cart: seq<CartItem>) {
    forall i, j | 0 <= i < j < |cart| :: KeyOf(cart[i]) != KeyOf(cart[j])
  }

  function KeysOf(cart: seq<CartItem>): set<Key> {
    set c | c in cart :: KeyOf(c)
  }

  /** The cart without the entry at index `i`; every other entry keeps its order. */
  function RemoveAt(cart: seq<CartItem>, i: nat): (r: seq<CartItem>)
    requires i < |cart|
    ensures |r| == |cart| - 1
    ensures multiset(r) + multiset{cart[i]} == multiset(cart)
    ensures forall j | 0 <= j < i :: r[j] == cart[j]
    ensures forall j | i <= j < |r| :: r[j] == cart[j + 1]
  {
    assert cart == cart[..i] + [cart[i]] + cart[i + 1..];
    cart[..i] + cart[i + 1..]
  }
}
