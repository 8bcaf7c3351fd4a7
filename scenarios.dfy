/**
 * The unit-test scenarios of the search tree, replayed on the model: trees of
 * integers, of strings and of products, with the sizes and search results the
 * scenarios assert stated as postconditions.
 */
module Scenarios {
  import opened Wrappers
  import opened JavaString
  import opened Ordering
  import opened Products
  import opened SearchTree
  import opened Catalog

  // ---------------------------------------------------------------------------
  // Element orders
  // ---------------------------------------------------------------------------

  /** `Integer.compareTo`: -1, 0 or 1. */
  function IntCompare(a: int, b: int): (r: int)
    ensures r < 0 <==> a < b
    ensures r == 0 <==> a == b
    ensures -1 <= r <= 1
  {
    if a < b then -1 else if a == b then 0 else 1
  }

  lemma IntCompareIsComparator()
    ensures Comparator(IntCompare)
  {
  }

  /** `String.compareTo` as the order of a tree of strings. */
  function StringCompare(a: JString, b: JString): int {
    JavaString.CompareTo(a, b)
  }

  lemma StringCompareIsComparator()
    ensures Comparator(StringCompare)
  {
    forall a, b ensures StringCompare(a, b) == -StringCompare(b, a) {
      CompareToAntisymmetric(a, b);
    }
    forall a, b, c | StringCompare(a, b) > 0 && StringCompare(b, c) > 0
      ensures StringCompare(a, c) > 0
    {
      CompareToAntisymmetric(a, b);
      CompareToAntisymmetric(b, c);
      CompareToAntisymmetric(a, c);
      CompareToTransitive(c, b, a);
    }
  }

  // ---------------------------------------------------------------------------
  // Test data, as UTF-16 code units
  // ---------------------------------------------------------------------------

  const Banana: JString := [0x62, 0x61, 0x6e, 0x61, 0x6e, 0x61]
  const Apple: JString := [0x61, 0x70, 0x70, 0x6c, 0x65]
  const Cherry: JString := [0x63, 0x68, 0x65, 0x72, 0x72, 0x79]
  const Orange: JString := [0x6f, 0x72, 0x61, 0x6e, 0x67, 0x65]

  const Sku001: JString := [0x53, 0x4b, 0x55, 0x30, 0x30, 0x31]
  const Sku002: JString := [0x53, 0x4b, 0x55, 0x30, 0x30, 0x32]
  const Sku003: JString := [0x53, 0x4b, 0x55, 0x30, 0x30, 0x33]
  const Sku004: JString := [0x53, 0x4b, 0x55, 0x30, 0x30, 0x34]

  /** "Producto 1" and "Categoría 1". */
  const Name1: JString := [0x50, 0x72, 0x6f, 0x64, 0x75, 0x63, 0x74, 0x6f, 0x20, 0x31]
  const Category1: JString := [0x43, 0x61, 0x74, 0x65, 0x67, 0x6f, 0x72, 0xed, 0x61, 0x20, 0x31]

  /** A product with an empty name and category. */
  function Product(sku: JString, priceRetail: real, priceCurrent: real): Producto {
    Producto(sku, priceRetail, priceCurrent, [], [])
  }

  /** Three elements inserted in ascending order stay in that order. */
  lemma InsertedAscending<E>(a: E, b: E, c: E, cmp: (E, E) -> int)
    requires cmp(b, a) > 0 && cmp(c, a) > 0 && cmp(c, b) > 0
    ensures InsertedInOrder([a], cmp) == [a]
    ensures InsertedInOrder([a, b], cmp) == [a, b]
    ensures InsertedInOrder([a, b, c], cmp) == [a, b, c]
  {
    InsertedInOrderSnoc([], a, cmp);
    InsertedInOrderSnoc([a], b, cmp);
    InsertedInOrderSnoc([a, b], c, cmp);
    assert [] + [a] == [a] && [a] + [b] == [a, b] && [a, b] + [c] == [a, b, c];
    assert Upsert([b], c, cmp) == [b, c];
  }

  /** A search among three elements answers with the first one comparing equal. */
  lemma FindInThree<E>(a: E, b: E, c: E, x: E, cmp: (E, E) -> int)
    ensures Find([a, b, c], x, cmp) ==
      if cmp(x, a) == 0 then Some(a)
      else if cmp(x, b) == 0 then Some(b)
      else if cmp(x, c) == 0 then Some(c)
      else None
  {
    assert [a, b, c][1..] == [b, c] && [b, c][1..] == [c] && [c][1..] == [];
  }

  // ---------------------------------------------------------------------------
  // Scenarios. `Insert` leaves `Contents() == Upsert(old(Contents()), x, cmp)`
  // and `Size() == |Contents()|`, so a run of inserts into a new tree leaves
  // `InsertedInOrder` of the inserted elements, and `Search` answers with `Find`.
  // ---------------------------------------------------------------------------

  /** Inserting 10, 5, 15 into an empty tree keeps them in ascending order. */
  lemma TenFiveFifteen()
    ensures InsertedInOrder([10], IntCompare) == [10]
    ensures InsertedInOrder([10, 5], IntCompare) == [5, 10]
    ensures InsertedInOrder([10, 5, 15], IntCompare) == [5, 10, 15]
  {
    InsertedInOrderSnoc([], 10, IntCompare);
    InsertedInOrderSnoc([10], 5, IntCompare);
    InsertedInOrderSnoc([10, 5], 15, IntCompare);
    assert [] + [10] == [10] && [10] + [5] == [10, 5] && [10, 5] + [15] == [10, 5, 15];
    assert Upsert([10], 15, IntCompare) == [10, 15];
  }

  /**
   * Inserting 10, 5, 15 grows the tree one by one; inserting 10 again leaves
   * the size at 3.
   */
  lemma InsertAndSizeInteger()
    ensures |InsertedInOrder([], IntCompare)| == 0
    ensures |InsertedInOrder([10], IntCompare)| == 1
    ensures |InsertedInOrder([10, 5], IntCompare)| == 2
    ensures |InsertedInOrder([10, 5, 15], IntCompare)| == 3
    ensures |InsertedInOrder([10, 5, 15, 10], IntCompare)| == 3
  {
    TenFiveFifteen();
    InsertedInOrderSnoc([10, 5, 15], 10, IntCompare);
    assert [10, 5, 15] + [10] == [10, 5, 15, 10];
    assert Upsert([10, 15], 10, IntCompare) == [10, 15];
  }

  /** Inserting 3 and then 7 after 10, 5, 15. */
  lemma FiveIntegers()
    ensures InsertedInOrder([10, 5, 15, 3, 7], IntCompare) == [3, 5, 7, 10, 15]
  {
    TenFiveFifteen();
    InsertedInOrderSnoc([10, 5, 15], 3, IntCompare);
    InsertedInOrderSnoc([10, 5, 15, 3], 7, IntCompare);
    assert [10, 5, 15] + [3] == [10, 5, 15, 3] && [10, 5, 15, 3] + [7] == [10, 5, 15, 3, 7];
    assert Upsert([10, 15], 7, IntCompare) == [7, 10, 15];
    assert Upsert([5, 10, 15], 7, IntCompare) == [5, 7, 10, 15];
  }

  /** An empty tree finds nothing; after five inserts each is found and 20 is not. */
  lemma SearchInteger()
    ensures Find([], 10, IntCompare) == None
    ensures var s := InsertedInOrder([10, 5, 15, 3, 7], IntCompare);
      Find(s, 10, IntCompare) == Some(10) && Find(s, 5, IntCompare) == Some(5) &&
      Find(s, 15, IntCompare) == Some(15) && Find(s, 3, IntCompare) == Some(3) &&
      Find(s, 7, IntCompare) == Some(7) && Find(s, 20, IntCompare) == None
  {
    FiveIntegers();
    var s := [3, 5, 7, 10, 15];
    assert s[1..] == [5, 7, 10, 15] && s[2..] == [7, 10, 15] && s[3..] == [10, 15] && s[4..] == [15];
    assert Find([15], 20, IntCompare) == None;
    assert Find([10, 15], 20, IntCompare) == None;
    assert Find([7, 10, 15], 20, IntCompare) == None;
    assert Find([5, 7, 10, 15], 20, IntCompare) == None;
  }

  /** The string comparisons the string scenarios make, settled at the first letter. */
  lemma StringOrder()
    ensures StringCompare(Apple, Banana) < 0 && StringCompare(Banana, Apple) > 0
    ensures StringCompare(Cherry, Banana) > 0 && StringCompare(Cherry, Apple) > 0
    ensures StringCompare(Orange, Apple) > 0 && StringCompare(Orange, Banana) > 0
    ensures StringCompare(Orange, Cherry) > 0
  {
    CompareToAtFirstDifference(Apple, Banana, 0);
    CompareToAtFirstDifference(Banana, Apple, 0);
    CompareToAtFirstDifference(Cherry, Banana, 0);
    CompareToAtFirstDifference(Cherry, Apple, 0);
    CompareToAtFirstDifference(Orange, Apple, 0);
    CompareToAtFirstDifference(Orange, Banana, 0);
    CompareToAtFirstDifference(Orange, Cherry, 0);
  }

  /** Strings: "banana", "apple", "cherry" are three; "banana" again keeps three. */
  lemma InsertAndSizeString()
    ensures |InsertedInOrder([Banana], StringCompare)| == 1
    ensures |InsertedInOrder([Banana, Apple], StringCompare)| == 2
    ensures |InsertedInOrder([Banana, Apple, Cherry], StringCompare)| == 3
    ensures |InsertedInOrder([Banana, Apple, Cherry, Banana], StringCompare)| == 3
  {
    StringOrder();
    BananaAppleCherry();
    InsertedInOrderSnoc([Banana, Apple, Cherry], Banana, StringCompare);
    assert [Banana, Apple, Cherry] + [Banana] == [Banana, Apple, Cherry, Banana];
    assert Upsert([Banana, Cherry], Banana, StringCompare) == [Banana, Cherry];
  }

  /** Inserting "banana", "apple", "cherry" stores them in alphabetical order. */
  lemma BananaAppleCherry()
    ensures InsertedInOrder([Banana], StringCompare) == [Banana]
    ensures InsertedInOrder([Banana, Apple], StringCompare) == [Apple, Banana]
    ensures InsertedInOrder([Banana, Apple, Cherry], StringCompare) == [Apple, Banana, Cherry]
  {
    StringOrder();
    InsertedInOrderSnoc([], Banana, StringCompare);
    InsertedInOrderSnoc([Banana], Apple, StringCompare);
    InsertedInOrderSnoc([Banana, Apple], Cherry, StringCompare);
    assert [] + [Banana] == [Banana] && [Banana] + [Apple] == [Banana, Apple];
    assert [Banana, Apple] + [Cherry] == [Banana, Apple, Cherry];
    assert Upsert([Banana], Cherry, StringCompare) == [Banana, Cherry];
  }

  /** In "apple", "banana", "cherry" each is found by itself and "orange" is not. */
  lemma FindAmongThreeStrings()
    ensures Find([Apple, Banana, Cherry], Apple, StringCompare) == Some(Apple)
    ensures Find([Apple, Banana, Cherry], Banana, StringCompare) == Some(Banana)
    ensures Find([Apple, Banana, Cherry], Cherry, StringCompare) == Some(Cherry)
    ensures Find([Apple, Banana, Cherry], Orange, StringCompare) == None
  {
    StringOrder();
    CompareToAntisymmetric(Banana, Apple);
    CompareToAntisymmetric(Cherry, Apple);
    CompareToAntisymmetric(Cherry, Banana);
    assert StringCompare(Apple, Apple) == 0 && StringCompare(Banana, Banana) == 0;
    assert StringCompare(Cherry, Cherry) == 0;
    FindInThree(Apple, Banana, Cherry, Apple, StringCompare);
    FindInThree(Apple, Banana, Cherry, Banana, StringCompare);
    FindInThree(Apple, Banana, Cherry, Cherry, StringCompare);
    FindInThree(Apple, Banana, Cherry, Orange, StringCompare);
  }

  /** Each inserted string is found; "orange" is not. */
  lemma SearchString()
    ensures Find([], Banana, StringCompare) == None
    ensures var s := InsertedInOrder([Banana, Apple, Cherry], StringCompare);
      Find(s, Banana, StringCompare) == Some(Banana) && Find(s, Apple, StringCompare) == Some(Apple) &&
      Find(s, Cherry, StringCompare) == Some(Cherry) && Find(s, Orange, StringCompare) == None
  {
    BananaAppleCherry();
    FindAmongThreeStrings();
  }

  /** The SKU comparisons the product scenarios make, settled at the last character. */
  lemma SkuOrder()
    ensures Less(Sku001, Sku002) && Less(Sku001, Sku003) && Less(Sku002, Sku003)
    ensures Less(Sku001, Sku004) && Less(Sku002, Sku004) && Less(Sku003, Sku004)
  {
    assert Sku001[..5] == Sku002[..5] == Sku003[..5] == Sku004[..5];
    CompareToAtFirstDifference(Sku001, Sku002, 5);
    CompareToAtFirstDifference(Sku001, Sku003, 5);
    CompareToAtFirstDifference(Sku002, Sku003, 5);
    CompareToAtFirstDifference(Sku001, Sku004, 5);
    CompareToAtFirstDifference(Sku002, Sku004, 5);
    CompareToAtFirstDifference(Sku003, Sku004, 5);
  }

  /** Products with SKUs SKU001, SKU002, SKU003, inserted in that order, stay in that order. */
  lemma InsertThreeSkus(p1: Producto, p2: Producto, p3: Producto)
    requires p1.sku == Sku001 && p2.sku == Sku002 && p3.sku == Sku003
    ensures InsertedInOrder([p1], Cmp) == [p1]
    ensures InsertedInOrder([p1, p2], Cmp) == [p1, p2]
    ensures InsertedInOrder([p1, p2, p3], Cmp) == [p1, p2, p3]
  {
    SkuOrder();
    assert Cmp(p2, p1) > 0 && Cmp(p3, p1) > 0 && Cmp(p3, p2) > 0;
    InsertedAscending(p1, p2, p3, Cmp);
  }

  /**
   * Products SKU001, SKU002, SKU003 make three; a second SKU001 with other
   * prices, name and category keeps three and takes the place of the first.
   */
  lemma InsertAndSizeProducto(p1: Producto, p2: Producto, p3: Producto, p1Duplicado: Producto)
    requires p1.sku == Sku001 && p2.sku == Sku002 && p3.sku == Sku003 && p1Duplicado.sku == Sku001
    ensures |InsertedInOrder([p1], Cmp)| == 1
    ensures |InsertedInOrder([p1, p2], Cmp)| == 2
    ensures |InsertedInOrder([p1, p2, p3], Cmp)| == 3
    ensures InsertedInOrder([p1, p2, p3, p1Duplicado], Cmp) == [p1Duplicado, p2, p3]
  {
    InsertThreeSkus(p1, p2, p3);
    InsertedInOrderSnoc([p1, p2, p3], p1Duplicado, Cmp);
    assert [p1, p2, p3] + [p1Duplicado] == [p1, p2, p3, p1Duplicado];
    assert Cmp(p1Duplicado, p1) == 0 && [p1, p2, p3][1..] == [p2, p3];
  }

  /** `new Producto("SKU001", 100.0, 90.0, "Producto 1", "Categoría 1")` keeps its arguments. */
  lemma FirstProductBuilt()
    ensures NewProducto(Some(Sku001), 100.0, 90.0, Some(Name1), Some(Category1))
         == Success(Producto(Sku001, 100.0, 90.0, Name1, Category1))
  {
    assert IsTrimmed(Sku001) && IsTrimmed(Name1) && IsTrimmed(Category1);
    assert !IsBlank(Sku001) by { assert !IsSpace(Sku001[0]); }
  }

  /** `new Producto("SKU001")` and `new Producto("SKU004")`: probes with zero prices. */
  lemma ProbesBuilt(sku: JString)
    requires sku == Sku001 || sku == Sku004
    ensures NewProbe(Some(sku)) == Success(Product(sku, 0.0, 0.0))
  {
    NewProbeOfTrimmed(sku);
  }

  /** In a list of three products a probe finds the product with its SKU, or nothing. */
  lemma FindAmongThree(p1: Producto, p2: Producto, p3: Producto, probe1: Producto, probe4: Producto)
    requires probe1.sku == p1.sku
    requires probe4.sku != p1.sku && probe4.sku != p2.sku && probe4.sku != p3.sku
    ensures Find([p1, p2, p3], probe1, Cmp) == Some(p1)
    ensures Find([p1, p2, p3], probe4, Cmp) == None
  {
    FindInThree(p1, p2, p3, probe1, Cmp);
    FindInThree(p1, p2, p3, probe4, Cmp);
  }

  /**
   * A search in an empty tree finds nothing; after inserting SKU001, SKU002 and
   * SKU003, a probe built from "SKU001" alone finds the stored product with all
   * its fields, and a probe for "SKU004" finds nothing. The probes are the
   * products `ProbesBuilt` shows the one-argument constructor makes.
   */
  lemma SearchProducto(p1: Producto, p2: Producto, p3: Producto)
    requires p1.sku == Sku001 && p2.sku == Sku002 && p3.sku == Sku003
    ensures Find([], p1, Cmp) == None
    ensures Find(InsertedInOrder([p1, p2, p3], Cmp), Product(Sku001, 0.0, 0.0), Cmp) == Some(p1)
    ensures Find(InsertedInOrder([p1, p2, p3], Cmp), Product(Sku004, 0.0, 0.0), Cmp) == None
  {
    InsertThreeSkus(p1, p2, p3);
    assert Sku004[5] != Sku001[5] && Sku004[5] != Sku002[5] && Sku004[5] != Sku003[5];
    FindAmongThree(p1, p2, p3, Product(Sku001, 0.0, 0.0), Product(Sku004, 0.0, 0.0));
  }

  /** After `clear()` the size is 0 and 10 is not found. */
  method ClearInteger() returns (size: int, found: Result<Option<int>, Exception>)
    ensures size == 0 && found == Success(None)
  {
    IntCompareIsComparator();
    var tree := new BST(IntCompare);
    var outcome := tree.Insert(Some(10));
    outcome := tree.Insert(Some(5));
    outcome := tree.Insert(Some(15));
    tree.Clear();
    size := tree.Size();
    found := tree.Search(Some(10));
  }

  /** Inserting or searching for null throws `IllegalArgumentException`. */
  method NullArguments() returns (inserted: Outcome<Exception>, searched: Result<Option<int>, Exception>)
    ensures inserted == Fail(IllegalArgumentException)
    ensures searched == Failure(IllegalArgumentException)
  {
    IntCompareIsComparator();
    var tree := new BST(IntCompare);
    inserted := tree.Insert(None);
    searched := tree.Search(None);
  }

  /** " SKU001\t": a query for SKU001 padded with a space and a tab. */
  const PaddedSku001: JString := [0x20, 0x53, 0x4b, 0x55, 0x30, 0x30, 0x31, 0x09]

  lemma PaddedQueryTrims()
    ensures !IsBlank(PaddedSku001) && Trim(PaddedSku001) == Sku001
  {
    assert IsTrimmed(Sku001) && IsBlank([0x20]) && IsBlank([0x09]);
    assert PaddedSku001 == [0x20] + Sku001 + [0x09];
    TrimIgnoresPadding([0x20], Sku001, [0x09]);
    assert !IsSpace(PaddedSku001[1]);
  }

  /** The list SKU001, SKU002, SKU001 again has two SKUs, and the later SKU001 is the last. */
  lemma ListWithRepeatedSku(p1: Producto, p2: Producto, p1Again: Producto)
    requires p1.sku == Sku001 && p2.sku == Sku002 && p1Again.sku == Sku001
    ensures |SkusOf([p1, p2, p1Again])| == 2
    ensures LastWithSku([p1, p2, p1Again], Sku001) == Some(p1Again)
  {
    assert SkusOf([p1, p2, p1Again]) == {Sku001, Sku002};
    assert Sku001[5] != Sku002[5];
  }

  /**
   * A catalog loaded with SKU001, SKU002 and a later SKU001 holds two products;
   * a padded query for SKU001 finds the later one.
   */
  lemma LoadAndLookUp(catalog: BuscadorProductos)
    requires catalog.Valid()
    requires catalog.productosTree.Contents() == InsertedInOrder(
      [Product(Sku001, 100.0, 90.0), Product(Sku002, 200.0, 180.0), Product(Sku001, 150.0, 130.0)], Cmp)
    ensures catalog.productosTree.Size() == 2
    ensures catalog.BuscarProductoPorSku(Some(PaddedSku001)) == Some(Product(Sku001, 150.0, 130.0))
  {
    var ps := [Product(Sku001, 100.0, 90.0), Product(Sku002, 200.0, 180.0), Product(Sku001, 150.0, 130.0)];
    ListWithRepeatedSku(ps[0], ps[1], ps[2]);
    SizeAfterLoad(catalog, ps);
    PaddedQueryTrims();
    LookupAfterLoad(catalog, ps, Some(PaddedSku001));
  }
}
