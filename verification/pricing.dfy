/** The server's cart pricing resolver (`GetCartProducts`): each cart line is joined with
    the product catalog and the variant catalog; a line whose product or variant is missing
    is dropped silently, and the surviving rows keep the input order. */
module Pricing {
  import opened Wrappers
  import opened CartItems

  datatype Product = Product(id: int, title: string, imageUrl: string)

  /** A purchasable configuration of a product; `productTypeName` is the name of the
      product type the query loads alongside the variant. `price` is a C# decimal. */
  datatype ProductVariant =
    ProductVariant(productId: int, productTypeId: int, price: real, productTypeName: string)

  /** The two tables the resolver reads, in the order the database returns them. */
  datatype Catalog = Catalog(products: seq<Product>, variants: seq<ProductVariant>)

  /** A display-ready cart row; never persisted. */
  datatype CartProductResponse = CartProductResponse(
    productId: int,
    title: string,
    imageUrl: string,
    price: real,
    productType: string,
    productTypeId: int,
    quantity: Int32)

  predicate IsFirstProduct(products: seq<Product>, k: int, id: int) {
    && 0 <= k < |products|
    && products[k].id == id
    && forall m | 0 <= m < k :: products[m].id != id
  }

  /** The first product with this id, if any. */
  function FindProduct(products: seq<Product>, id: int): (r: Option<Product>)
    ensures r.None? <==> forall k | 0 <= k < |products| :: products[k].id != id
    ensures r.Some? ==> exists k | IsFirstProduct(products, k, id) :: products[k] == r.value
  {
    if |products| == 0 then None
    else if products[0].id == id then
      assert IsFirstProduct(products, 0, id);
      Some(products[0])
    else
      var r := FindProduct(products[1..], id);
      if r.Some? then
        var k :| IsFirstProduct(products[1..], k, id) && products[1..][k] == r.value;
        assert IsFirstProduct(products, k + 1, id);
        r
      else r
  }

  predicate VariantMatches(v: ProductVariant, k: Key) {
    v.productId == k.productId && v.productTypeId == k.productTypeId
  }

  predicate IsFirstVariant(variants: seq<ProductVariant>, n: int, k: Key) {
    && 0 <= n < |variants|
    && VariantMatches(variants[n], k)
    && forall m | 0 <= m < n :: !VariantMatches(variants[m], k)
  }

  /** The first variant of this product with this product type, if any. */
  function FindVariant(variants: seq<ProductVariant>, k: Key): (r: Option<ProductVariant>)
    ensures r.None? <==> forall n | 0 <= n < |variants| :: !VariantMatches(variants[n], k)
    ensures r.Some? ==> exists n | IsFirstVariant(variants, n, k) :: variants[n] == r.value
  {
    if |variants| == 0 then None
    else if VariantMatches(variants[0], k) then
      assert IsFirstVariant(variants, 0, k);
      Some(variants[0])
    else
      var r := FindVariant(variants[1..], k);
      if r.Some? then
        var n :| IsFirstVariant(variants[1..], n, k) && variants[1..][n] == r.value;
        assert IsFirstVariant(variants, n + 1, k);
        r
      else r
  }

  predicate HasProduct(catalog: Catalog, item: CartItem) {
    exists k | 0 <= k < |catalog.products| :: catalog.products[k].id == item.productId
  }

  predicate HasVariant(catalog: Catalog, item: CartItem) {
    exists n | 0 <= n < |catalog.variants| :: VariantMatches(catalog.variants[n], KeyOf(item))
  }

  /** The loop body of the resolver for one cart line: None when the line is skipped. */
  function PriceItem(item: CartItem, catalog: Catalog): (r: Option<CartProductResponse>)
    ensures r.Some? <==> HasProduct(catalog, item) && HasVariant(catalog, item)
    ensures r.Some? ==>
      && r.value.productId == item.productId
      && r.value.productTypeId == item.productTypeId
      && r.value.quantity == item.quantity
  {
    match FindProduct(catalog.products, item.productId)
    case None => None
    case Some(product) =>
      match FindVariant(catalog.variants, KeyOf(item))
      case None => None
      case Some(variant) =>
        Some(CartProductResponse(
          product.id, product.title, product.imageUrl,
          variant.price, variant.productTypeName, variant.productTypeId,
          item.quantity))
  }

  /** A priced row carries the display fields of the FIRST product with the line's product id
      and the price and type name of the FIRST variant with the line's key. */
  lemma PriceItemCarries(item: CartItem, catalog: Catalog)
    requires PriceItem(item, catalog).Some?
    ensures exists k | IsFirstProduct(catalog.products, k, item.productId) ::
      && PriceItem(item, catalog).value.title == catalog.products[k].title
      && PriceItem(item, catalog).value.imageUrl == catalog.products[k].imageUrl
    ensures exists n | IsFirstVariant(catalog.variants, n, KeyOf(item)) ::
      && PriceItem(item, catalog).value.price == catalog.variants[n].price
      && PriceItem(item, catalog).value.productType == catalog.variants[n].productTypeName
  {
    var product := FindProduct(catalog.products, item.productId).value;
    var variant := FindVariant(catalog.variants, KeyOf(item)).value;
    var k :| IsFirstProduct(catalog.products, k, item.productId) && catalog.products[k] == product;
    var n :| IsFirstVariant(catalog.variants, n, KeyOf(item)) && catalog.variants[n] == variant;
  }

  /** The resolver's answer: the priced rows of the resolvable lines, in order. */
  function Resolve(items: seq<CartItem>, catalog: Catalog): (rows: seq<CartProductResponse>)
    ensures |rows| <= |items|
  {
    if |items| == 0 then []
    else
      var rest := Resolve(items[1..], catalog);
      match PriceItem(items[0], catalog)
      case None => rest
      case Some(row) => [row] + rest
  }

  /** Pricing distributes over concatenation: nothing is aggregated or reordered across lines. */
  lemma {:induction false} ResolveAppend(a: seq<CartItem>, b: seq<CartItem>, catalog: Catalog)
    ensures Resolve(a + b, catalog) == Resolve(a, catalog) + Resolve(b, catalog)
  {
    if |a| == 0 {
      assert a + b == b;
    } else {
      assert (a + b)[1..] == a[1..] + b;
      assert (a + b)[0] == a[0];
      ResolveAppend(a[1..], b, catalog);
      match PriceItem(a[0], catalog)
      case None =>
      case Some(row) =>
        assert Resolve(a + b, catalog) == [row] + Resolve(a[1..] + b, catalog);
    }
  }

  /** The positions, from `from` on, of the lines that survive pricing, in increasing order:
      exactly the positions whose product and variant both exist. */
  function Survivors(items: seq<CartItem>, catalog: Catalog, from: nat): (idx: seq<nat>)
    requires from <= |items|
    ensures forall j | 0 <= j < |idx| :: from <= idx[j] < |items| && PriceItem(items[idx[j]], catalog).Some?
    ensures forall j, m | 0 <= j < m < |idx| :: idx[j] < idx[m]
    ensures forall i | from <= i < |items| && PriceItem(items[i], catalog).Some? :: i in idx
    decreases |items| - from
  {
    if from == |items| then []
    else
      var rest := Survivors(items, catalog, from + 1);
      if PriceItem(items[from], catalog).Some? then [from] + rest else rest
  }

  lemma {:induction false} SurvivorsCount(items: seq<CartItem>, catalog: Catalog, from: nat)
    requires from <= |items|
    ensures |Resolve(items[from..], catalog)| == |Survivors(items, catalog, from)|
    decreases |items| - from
  {
    if from < |items| {
      SurvivorsCount(items, catalog, from + 1);
      assert items[from..][1..] == items[from + 1..];
      assert items[from..][0] == items[from];
    }
  }

  lemma {:induction false} SurvivorRow(items: seq<CartItem>, catalog: Catalog, from: nat, j: nat)
    requires from <= |items|
    requires j < |Survivors(items, catalog, from)|
    ensures j < |Resolve(items[from..], catalog)|
    ensures Some(Resolve(items[from..], catalog)[j]) == PriceItem(items[Survivors(items, catalog, from)[j]], catalog)
    decreases |items| - from
  {
    SurvivorsCount(items, catalog, from);
    assert items[from..][1..] == items[from + 1..];
    assert items[from..][0] == items[from];
    var rest := Resolve(items[from + 1..], catalog);
    var idx := Survivors(items, catalog, from + 1);
    match PriceItem(items[from], catalog)
    case None =>
      assert Resolve(items[from..], catalog) == rest;
      assert Survivors(items, catalog, from) == idx;
      SurvivorRow(items, catalog, from + 1, j);
    case Some(row) =>
      assert Resolve(items[from..], catalog) == [row] + rest;
      assert Survivors(items, catalog, from) == [from] + idx;
      if j > 0 {
        SurvivorRow(items, catalog, from + 1, j - 1);
      }
  }

  /** The priced output is exactly the priced forms of the surviving lines, in input order:
      row `j` comes from the `j`-th line whose product and variant both exist. */
  lemma ResolveFollowsSurvivors(items: seq<CartItem>, catalog: Catalog)
    ensures |Resolve(items, catalog)| == |Survivors(items, catalog, 0)|
    ensures forall j | 0 <= j < |Survivors(items, catalog, 0)| ::
      Some(Resolve(items, catalog)[j]) == PriceItem(items[Survivors(items, catalog, 0)[j]], catalog)
  {
    assert items[0..] == items;
    SurvivorsCount(items, catalog, 0);
    forall j | 0 <= j < |Survivors(items, catalog, 0)|
      ensures Some(Resolve(items, catalog)[j]) == PriceItem(items[Survivors(items, catalog, 0)[j]], catalog)
    {
      SurvivorRow(items, catalog, 0, j);
    }
  }

  /** A line with no product, or no variant, contributes nothing and is not an error. */
  lemma SkipsUnresolvable(a: seq<CartItem>, item: CartItem, b: seq<CartItem>, catalog: Catalog)
    requires !HasProduct(catalog, item) || !HasVariant(catalog, item)
    ensures Resolve(a + [item] + b, catalog) == Resolve(a, catalog) + Resolve(b, catalog)
  {
    ResolveAppend(a + [item], b, catalog);
    ResolveAppend(a, [item], catalog);
  }

  /** Two resolvable lines with the same key are priced as two rows: no aggregation. */
  lemma NoAggregation(items: seq<CartItem>, x: CartItem, y: CartItem, catalog: Catalog)
    requires KeyOf(x) == KeyOf(y)
    requires HasProduct(catalog, x) && HasVariant(catalog, x)
    ensures |Resolve(items + [x, y], catalog)| == |Resolve(items, catalog)| + 2
  {
    ResolveAppend(items, [x, y], catalog);
    assert [x, y][1..] == [y];
    assert HasProduct(catalog, y) && HasVariant(catalog, y);
  }
}
