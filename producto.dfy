/**
 * `Producto`: a retail product. Every field is final, so a product is a value.
 * The constructor rejects a missing or blank SKU and stores every text field
 * trimmed; ordering and equality look at the SKU alone.
 */
module Products {
  import opened Wrappers
  import opened JavaString
  import opened Ordering

  /**
   * A product as its constructor leaves it. The prices are Java `double`s that
   * the catalog only carries around, so they are kept as plain numbers.
   */
  datatype Producto = Producto(
    sku: JString,
    priceRetail: real,
    priceCurrent: real,
    productName: JString,
    category: JString)

  /** What the constructor guarantees: a non-empty SKU and trimmed text fields. */
  predicate WellFormed(p: Producto) {
    p.sku != [] && IsTrimmed(p.sku) && IsTrimmed(p.productName) && IsTrimmed(p.category)
  }

  /** A null text field reads as the empty string. */
  function OrEmpty(s: Option<JString>): JString {
    if s.None? then [] else s.value
  }

  /**
   * `new Producto(sku, priceRetail, priceCurrent, productName, category)`: a
   * null or blank SKU throws; otherwise the SKU, name and category are stored
   * trimmed (a null name or category as the empty string) and the prices as given.
   */
  function NewProducto(
    sku: Option<JString>, priceRetail: real, priceCurrent: real,
    productName: Option<JString>, category: Option<JString>): (r: Result<Producto, Exception>)
    ensures r.Failure? <==> sku.None? || IsBlank(sku.value)
    ensures r.Failure? ==> r.error == IllegalArgumentException
    ensures r.Success? ==> WellFormed(r.value)
    ensures r.Success? ==>
      r.value.sku == Trim(sku.value) &&
      r.value.priceRetail == priceRetail && r.value.priceCurrent == priceCurrent
    ensures r.Success? && productName.Some? ==> r.value.productName == Trim(productName.value)
    ensures r.Success? && category.Some? ==> r.value.category == Trim(category.value)
    ensures r.Success? && productName.None? ==> r.value.productName == []
    ensures r.Success? && category.None? ==> r.value.category == []
  {
    if sku.None? || Trim(sku.value) == [] then Failure(IllegalArgumentException)
    else
      Success(Producto(
        Trim(sku.value), priceRetail, priceCurrent,
        Trim(OrEmpty(productName)), Trim(OrEmpty(category))))
  }

  /** Whitespace around the SKU does not change the product that is built. */
  lemma NewProductoIgnoresSkuPadding(
    pre: JString, sku: JString, post: JString, priceRetail: real, priceCurrent: real,
    productName: Option<JString>, category: Option<JString>)
    requires IsBlank(pre) && IsBlank(post) && IsTrimmed(sku)
    ensures NewProducto(Some(pre + sku + post), priceRetail, priceCurrent, productName, category)
         == NewProducto(Some(sku), priceRetail, priceCurrent, productName, category)
  {
    TrimIgnoresPadding(pre, sku, post);
  }

  /**
   * `new Producto(sku)`, the probe used for searching: the full constructor
   * with both prices `0.0` and an empty name and category.
   */
  function NewProbe(sku: Option<JString>): (r: Result<Producto, Exception>)
    ensures r.Failure? <==> sku.None? || IsBlank(sku.value)
    ensures r.Failure? ==> r.error == IllegalArgumentException
    ensures r.Success? ==>
      WellFormed(r.value) && r.value.sku == Trim(sku.value) &&
      r.value.priceRetail == 0.0 && r.value.priceCurrent == 0.0 &&
      r.value.productName == [] && r.value.category == []
  {
    NewProducto(sku, 0.0, 0.0, Some([]), Some([]))
  }

  /** A probe for an already trimmed, non-empty SKU carries that SKU unchanged. */
  lemma NewProbeOfTrimmed(sku: JString)
    requires sku != [] && IsTrimmed(sku)
    ensures NewProbe(Some(sku)) == Success(Producto(sku, 0.0, 0.0, [], []))
  {
    assert !IsBlank(sku) by { assert !IsSpace(sku[0]); }
  }

  /**
   * `compareTo(other)`: positive against null; otherwise the SKUs'
   * `String.compareTo`, so prices, name and category never affect the order.
   */
  function CompareTo(p: Producto, other: Option<Producto>): (r: int)
    ensures other.None? ==> r > 0
    ensures other.Some? ==> (r == 0 <==> p.sku == other.value.sku)
    ensures other.Some? ==> (r < 0 <==> Less(p.sku, other.value.sku))
    ensures other.Some? ==> (r > 0 <==> Less(other.value.sku, p.sku))
  {
    if other.None? then 1
    else
      CompareToAntisymmetric(p.sku, other.value.sku);
      JavaString.CompareTo(p.sku, other.value.sku)
  }

  /** The comparison the product tree is ordered by: `a.compareTo(b)`. */
  function Cmp(a: Producto, b: Producto): int {
    CompareTo(a, Some(b))
  }

  /**
   * `Producto.compareTo` honours the `Comparable` contract, because the SKU
   * order of `String.compareTo` is a strict total order.
   */
  lemma CmpIsComparator()
    ensures Comparator(Cmp)
  {
    LessIsStrictTotalOrder();
    forall x, y, z | Cmp(x, y) > 0 && Cmp(y, z) > 0 ensures Cmp(x, z) > 0 {
      assert Less(z.sku, y.sku) && Less(y.sku, x.sku);
    }
    forall x, y, z | Cmp(x, y) == 0 ensures Cmp(x, z) < 0 <==> Cmp(y, z) < 0 {
      assert x.sku == y.sku;
    }
  }

  /** A Java `Object` reference as `equals` sees it. */
  datatype JObject = Null | ProductoObject(producto: Producto) | OtherObject

  /**
   * `equals(obj)`: false for null and for an object of another class; for a
   * product, true exactly when the SKUs are equal.
   */
  function Equals(p: Producto, obj: JObject): (b: bool)
    ensures obj.Null? || obj.OtherObject? ==> !b
    ensures obj.ProductoObject? ==> (b <==> CompareTo(p, Some(obj.producto)) == 0)
  {
    obj.ProductoObject? && p.sku == obj.producto.sku
  }

  /** Equality is an equivalence on products, and a product equals itself. */
  lemma EqualsIsEquivalence(p: Producto, q: Producto, s: Producto)
    ensures Equals(p, ProductoObject(p))
    ensures Equals(p, ProductoObject(q)) == Equals(q, ProductoObject(p))
    ensures Equals(p, ProductoObject(q)) && Equals(q, ProductoObject(s)) ==> Equals(p, ProductoObject(s))
  {
  }
}
