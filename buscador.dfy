/**
 * `BuscadorProductos`: the catalog facade. It owns one product tree ordered by
 * SKU, fills it from a product list, looks products up by SKU and lists them
 * in ascending or descending SKU order.
 */
module Catalog {
  import opened Wrappers
  import opened JavaString
  import opened Ordering
  import opened Products
  import opened SearchTree

  // ---------------------------------------------------------------------------
  // What a load leaves in the tree
  // ---------------------------------------------------------------------------

  /** The SKUs occurring in `ps`. */
  ghost function SkusOf(ps: seq<Producto>): set<JString> {
    set p | p in ps :: p.sku
  }

  /** The last product of `ps` with SKU `sku`, if there is one. */
  function LastWithSku(ps: seq<Producto>, sku: JString): (r: Option<Producto>)
    ensures r.None? <==> sku !in SkusOf(ps)
    ensures r.Some? ==> r.value in ps && r.value.sku == sku
    ensures r.Some? ==> forall i | 0 <= i < |ps| && ps[i].sku == sku :: ps[i] == r.value || exists j :: i < j < |ps| && ps[j] == r.value
  {
    if ps == [] then None
    else if ps[|ps| - 1].sku == sku then Some(ps[|ps| - 1])
    else
      var r := LastWithSku(ps[..|ps| - 1], sku);
      assert forall p | p in ps[..|ps| - 1] :: p in ps;
      assert ps == ps[..|ps| - 1] + [ps[|ps| - 1]];
      r
  }

  /** A load leaves the products strictly sorted by SKU. */
  lemma {:induction false} LoadedIsSorted(ps: seq<Producto>)
    ensures StrictlySorted(InsertedInOrder(ps, Cmp), Cmp)
  {
    if ps != [] {
      CmpIsComparator();
      LoadedIsSorted(ps[..|ps| - 1]);
      UpsertSorted(InsertedInOrder(ps[..|ps| - 1], Cmp), ps[|ps| - 1], Cmp);
    }
  }

  /**
   * Last duplicate wins: after a load, looking up any SKU finds the last
   * product of the list with that SKU, and nothing when no product has it.
   */
  lemma {:induction false} LoadedFindsLastWithSku(ps: seq<Producto>, probe: Producto)
    ensures Find(InsertedInOrder(ps, Cmp), probe, Cmp) == LastWithSku(ps, probe.sku)
  {
    if ps != [] {
      var init, last := ps[..|ps| - 1], ps[|ps| - 1];
      CmpIsComparator();
      LoadedFindsLastWithSku(init, probe);
      FindAfterUpsert(InsertedInOrder(init, Cmp), last, probe, Cmp);
    }
  }

  /** A load keeps one product per distinct SKU of the list. */
  lemma {:induction false} LoadedLength(ps: seq<Producto>)
    ensures |InsertedInOrder(ps, Cmp)| == |SkusOf(ps)|
  {
    if ps != [] {
      var init, last := ps[..|ps| - 1], ps[|ps| - 1];
      LoadedLength(init);
      GrowsByNewSku(init, last);
      SkusOfSnoc(init, last);
      assert ps == init + [last];
    }
  }

  /** Upserting the next product grows the load by one exactly when its SKU is new. */
  lemma GrowsByNewSku(init: seq<Producto>, last: Producto)
    ensures |Upsert(InsertedInOrder(init, Cmp), last, Cmp)| == |InsertedInOrder(init, Cmp)| + if last.sku in SkusOf(init) then 0 else 1
  {
    CmpIsComparator();
    LoadedIsSorted(init);
    UpsertLength(InsertedInOrder(init, Cmp), last, Cmp);
    LoadedFindsLastWithSku(init, last);
  }

  lemma SkusOfSnoc(init: seq<Producto>, last: Producto)
    ensures SkusOf(init + [last]) == SkusOf(init) + {last.sku}
  {
    forall sku | sku in SkusOf(init + [last]) ensures sku in SkusOf(init) + {last.sku} {
      var p :| p in init + [last] && p.sku == sku;
    }
  }

  /** The SKUs stored after a load are exactly the SKUs of the list. */
  lemma LoadedSkus(ps: seq<Producto>)
    ensures SkusOf(InsertedInOrder(ps, Cmp)) == SkusOf(ps)
  {
    forall sku ensures sku in SkusOf(InsertedInOrder(ps, Cmp)) <==> sku in SkusOf(ps) {
      var probe := Producto(sku, 0.0, 0.0, [], []);
      LoadedFindsLastWithSku(ps, probe);
      if sku in SkusOf(InsertedInOrder(ps, Cmp)) {
        var p :| p in InsertedInOrder(ps, Cmp) && p.sku == sku;
        assert Cmp(probe, p) == 0;
      }
    }
  }

  /** Searching products with `Cmp` is searching by SKU. */
  lemma FindBySku(s: seq<Producto>, probe: Producto)
    ensures Find(s, probe, Cmp).Some? ==>
      Find(s, probe, Cmp).value in s && Find(s, probe, Cmp).value.sku == probe.sku
    ensures Find(s, probe, Cmp).None? <==> forall p | p in s :: p.sku != probe.sku
  {
  }

  /** The argument standing for `productos::add`, the list-appending action. */
  datatype AddToList = AddToList

  class BuscadorProductos {
    const productosTree: BST<Producto>

    /** The tree is a valid search tree ordered by `Producto.compareTo`. */
    ghost predicate Valid()
      reads this, productosTree
    {
      productosTree.Valid() && productosTree.cmp == Cmp
    }

    /** `new BuscadorProductos()`: an empty catalog. */
    constructor ()
      ensures Valid() && fresh(productosTree)
      ensures productosTree.Contents() == []
    {
      CmpIsComparator();
      productosTree := new BST(Cmp);
    }

    /**
     * `cargarProductos`: `source` is what reading the CSV file gives. When the
     * read fails its exception propagates and the tree is untouched; otherwise
     * the tree is cleared and every product inserted in list order.
     */
    method CargarProductos(source: Result<seq<Producto>, Exception>) returns (outcome: Outcome<Exception>)
      requires Valid()
      modifies productosTree
      ensures Valid()
      ensures source.Failure? ==> outcome == Fail(source.error) && unchanged(productosTree)
      ensures source.Success? ==>
        outcome == Pass && productosTree.Contents() == InsertedInOrder(source.value, Cmp)
    {
      if source.Failure? {
        return Fail(source.error);
      }
      var productos := source.value;
      productosTree.Clear();
      for i := 0 to |productos|
        invariant Valid()
        invariant productosTree.Contents() == InsertedInOrder(productos[..i], Cmp)
      {
        var inserted := productosTree.Insert(Some(productos[i]));
        InsertedInOrderPrefix(productos, i, Cmp);
      }
      assert productos[..|productos|] == productos;
      outcome := Pass;
    }

    /**
     * `buscarProductoPorSKU`: a null or blank SKU finds nothing without
     * looking at the tree; otherwise the tree is searched with a probe built
     * from the trimmed SKU, and the stored product with that SKU is returned.
     */
    function BuscarProductoPorSku(sku: Option<JString>): (r: Option<Producto>)
      requires Valid()
      reads this, productosTree
      ensures sku.None? || IsBlank(sku.value) ==> r.None?
      ensures r.Some? ==> r.value in productosTree.Contents() && r.value.sku == Trim(sku.value)
      ensures r.None? && sku.Some? && !IsBlank(sku.value) ==>
        forall p | p in productosTree.Contents() :: p.sku != Trim(sku.value)
    {
      if sku.None? || Trim(sku.value) == [] then None
      else
        var trimmed := Trim(sku.value);
        assert !IsBlank(trimmed) by { assert !IsSpace(trimmed[0]); }
        var probe := NewProbe(Some(trimmed));
        assert probe.Success? && probe.value.sku == trimmed;
        var found := productosTree.Search(Some(probe.value));
        assert found == Success(Find(productosTree.Contents(), probe.value, Cmp));
        FindBySku(productosTree.Contents(), probe.value);
        found.value
    }

    /**
     * `listarProductosAscendente`: a new list filled by the in-order traversal,
     * one `add` per product: every stored product once, by ascending SKU.
     */
    method ListarProductosAscendente() returns (productos: seq<Producto>)
      requires Valid()
      ensures productos == productosTree.Contents()
      ensures |productos| == productosTree.Size()
      ensures forall i, j | 0 <= i < j < |productos| :: Less(productos[i].sku, productos[j].sku)
    {
      var visited := productosTree.InOrderTraversal(Some(AddToList));
      productos := AddEach(visited.value);
    }

    /**
     * `listarProductosDescendente`: a new list filled by the reverse in-order
     * traversal: the ascending listing reversed, by descending SKU.
     */
    method ListarProductosDescendente() returns (productos: seq<Producto>)
      requires Valid()
      ensures productos == Reverse(productosTree.Contents())
      ensures |productos| == productosTree.Size()
      ensures forall i, j | 0 <= i < j < |productos| :: Less(productos[j].sku, productos[i].sku)
    {
      var visited := productosTree.ReverseInOrderTraversal(Some(AddToList));
      productos := AddEach(visited.value);
    }
  }

  /**
   * The list a traversal fills through `productos::add`: starting empty, one
   * `add` per product the action receives, in the order received.
   */
  method AddEach<E>(received: seq<E>) returns (list: seq<E>)
    ensures list == received
  {
    list := [];
    for i := 0 to |received|
      invariant list == received[..i]
    {
      list := list + [received[i]];
      PrefixSnoc(received, i);
    }
    assert received[..|received|] == received;
  }

  /**
   * A lookup after a load finds the last product of the list with the trimmed
   * SKU; a null or blank SKU finds nothing.
   */
  lemma LookupAfterLoad(b: BuscadorProductos, ps: seq<Producto>, sku: Option<JString>)
    requires b.Valid() && b.productosTree.Contents() == InsertedInOrder(ps, Cmp)
    ensures sku.None? || IsBlank(sku.value) ==> b.BuscarProductoPorSku(sku).None?
    ensures sku.Some? && !IsBlank(sku.value) ==>
      b.BuscarProductoPorSku(sku) == LastWithSku(ps, Trim(sku.value))
  {
    if sku.Some? && !IsBlank(sku.value) {
      var trimmed := Trim(sku.value);
      var probe := NewProbe(Some(trimmed));
      assert probe.Success? && probe.value.sku == trimmed;
      assert b.productosTree.Search(Some(probe.value)) == Success(Find(InsertedInOrder(ps, Cmp), probe.value, Cmp));
      assert b.BuscarProductoPorSku(sku) == Find(InsertedInOrder(ps, Cmp), probe.value, Cmp);
      LoadedFindsLastWithSku(ps, probe.value);
    }
  }

  /** After a load the tree's `size` is the number of distinct SKUs in the list. */
  lemma SizeAfterLoad(b: BuscadorProductos, ps: seq<Producto>)
    requires b.Valid() && b.productosTree.Contents() == InsertedInOrder(ps, Cmp)
    ensures b.productosTree.Size() == |SkusOf(ps)|
  {
    LoadedLength(ps);
  }
}
