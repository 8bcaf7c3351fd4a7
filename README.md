# Product catalog over a binary search tree — Dafny model

The Java program keeps a retail catalog in an unbalanced binary search tree
ordered by product SKU. `BST<E>` is a generic search tree with upsert
insertion, search by `compareTo`, ascending and descending in-order
traversals, `size`, `isEmpty` and `clear`. `Producto` is an immutable product
whose constructor rejects a null or blank SKU and trims its text fields.
Products compare and are equal by SKU alone. `BuscadorProductos` is the
catalog facade: it loads a product list into the tree, looks a product up by
a trimmed SKU and lists the catalog in ascending or descending SKU order.

The Dafny project has these modules:

- `Wrappers` (`wrappers.dfy`): `Option`, `Result` and `Outcome`, plus the two
  Java exceptions the core throws or passes on (`IllegalArgumentException`,
  `IOException`). A Java `null` argument is `None`, and a thrown exception is
  `Failure`/`Fail`.
- `JavaString` (`jstring.dfy`): Java strings as sequences of UTF-16 code units,
  with `String.compareTo` and `String.trim`.
- `Ordering` (`ordering.dfy`): the reference definitions the tree is specified
  by. They work on plain sequences: the `Comparable` contract (`Comparator`),
  `StrictlySorted`, `Find` (first element that compares equal), `Upsert`
  (sorted insert that replaces an equal element), `InsertedInOrder` (a run of
  upserts from empty) and `Reverse`, with the lemmas that connect them.
- `SearchTree` (`bst.dfy`): the class `BST` with its mutable `root` and `size`
  fields. Its abstract value `Contents()` is the in-order sequence of the tree,
  which the invariant `Valid()` keeps strictly sorted. Every operation is
  specified against the `Ordering` definitions.
- `Products` (`producto.dfy`): `Producto` as a value, its two constructors,
  `compareTo` and `equals`.
- `Catalog` (`buscador.dfy`): the class `BuscadorProductos` and what a load
  leaves in the tree. The tree holds, for every distinct SKU of the list, the
  last product with that SKU, in SKU order.
- `Scenarios` (`scenarios.dfy`): the unit-test scenarios of `BSTTest.java`,
  stated on the reference definitions. `BST.Insert` guarantees
  `Contents() == Upsert(old(Contents()), x, cmp)`, so the contents after a run
  of inserts into a new tree are `InsertedInOrder` of the inserted elements.
  `BST.Search` answers `Find(Contents(), x, cmp)`, and `Size()` is
  `|Contents()|`. The null-argument and `clear` scenarios are methods that
  call the class's operations.

## Model

| member | source | states |
|---|---|---|
| JavaString.CompareTo | Producto.java:70 | `String.compareTo` is zero exactly when the two strings are equal |
| JavaString.CompareToIsLexicographic | Producto.java:70 | `compareTo < 0` holds exactly when the first string is a proper prefix of the second or has the smaller code unit at the first difference |
| JavaString.CompareToAtFirstDifference | Producto.java:70 | at the first index where two strings differ, `compareTo` is the difference of the code units there |
| JavaString.CompareToAntisymmetric | Producto.java:66-71 | `a.compareTo(b) == -b.compareTo(a)` |
| JavaString.CompareToTransitive | Producto.java:66-71 | `a < b` and `b < c` give `a < c` in `compareTo` order |
| JavaString.LessIsStrictTotalOrder | Producto.java:66-71 | SKU order is irreflexive, asymmetric, transitive and total |
| JavaString.Trim | Producto.java:17-31 | `trim` leaves no strippable code unit (at most U+0020) at either end; it returns empty exactly for a blank string; it leaves a trimmed string unchanged |
| JavaString.TrimIgnoresPadding | BuscadorProductos.java:48-51 | blank padding on both sides of a trimmed string does not change what `trim` returns |
| Ordering.Find | BST.java:78-90 | the sequence search returns an element that compares equal to the probe; it returns nothing exactly when no element does |
| Ordering.UpsertMembers | BST.java:41-63 | an upsert keeps every element that does not compare equal to the new one, adds the new one and nothing else |
| Ordering.UpsertSorted | BST.java:41-63 | an upsert keeps a strictly sorted sequence strictly sorted |
| Ordering.UpsertLength | BST.java:41-63 | an upsert grows a sorted sequence by one exactly when no element compared equal to the new one |
| Ordering.FindAfterUpsert | BST.java:59 | last write wins: after an upsert a probe equal to the new element finds it, and any other probe finds what it found before |
| Ordering.InsertedInOrderSnoc | BuscadorProductos.java:35-37 | inserting one more element upserts it into what the earlier inserts gave |
| Ordering.InsertedInOrderPrefix | BuscadorProductos.java:35-37 | the first `i + 1` inserts upsert element `i` into what the first `i` gave |
| Ordering.UpsertBelowNode | BST.java:51-53 | upserting into a node's sequence below the node's element upserts into the left subtree only |
| Ordering.ExceedsBelow | BST.java:54-59 | an element at or above a node's element compares above every element of the left subtree |
| Ordering.UpsertAboveNode | BST.java:54-56 | upserting above the node's element upserts into the right subtree only |
| Ordering.UpsertAtNode | BST.java:57-59 | upserting an element equal to the node's element replaces that element in place |
| Ordering.ReplaceKeepsOrder | BST.java:59 | replacing a node's element by one that compares equal keeps the node ordered |
| Ordering.FindAppend | BST.java:78-90 | a search of a concatenation searches the first part, then the second |
| Ordering.FindAroundNode | BST.java:80-89 | below the node's element only the left subtree can match, above it only the right, and an equal probe finds the node |
| Ordering.NoneAboveNode | BST.java:85-86 | no element of the right subtree matches a probe below the node's element |
| Ordering.NoneBelowNode | BST.java:87-88 | no element of the left subtree matches a probe at or above the node's element |
| Ordering.SortedAroundNode | BST.java:7-17 | sorted subtrees around a node's element give a strictly sorted in-order sequence |
| Ordering.ReverseAroundNode | BST.java:122-128 | reversing the in-order sequence of a node gives reversed right subtree, the element, then the reversed left subtree |
| Ordering.ReverseLength | BST.java:115-128 | reversal keeps the length |
| Ordering.ReverseAt | BST.java:115-128 | position `k` of the reversal is position `n - 1 - k` of the original |
| Ordering.ReverseOfSortedIsDescending | BST.java:111-128 | the reversal of a strictly ascending sequence is strictly descending |
| SearchTree.OrderedIsSorted | BST.java:7-17 | the in-order sequence of a search tree is strictly sorted |
| SearchTree.NodeCount | BST.java:7-17 | the number of nodes is the length of the in-order sequence |
| SearchTree.BST.Contents | BST.java:19-20 | the tree's abstract value is its in-order sequence, strictly sorted by `compareTo` |
| SearchTree.BST.constructor | BST.java:25-28 | a new tree is valid and empty |
| SearchTree.BST.Insert | BST.java:34-39 | null throws `IllegalArgumentException` and changes nothing; otherwise the contents become the upsert of the element, and `size` grows by one exactly when no stored element compared equal |
| SearchTree.BST.InsertRecursive | BST.java:41-63 | the returned subtree is ordered, non-empty and holds the upsert of its old elements; `size` grows by the number of nodes added |
| SearchTree.BST.Search | BST.java:70-76 | null throws `IllegalArgumentException`; otherwise the stored element comparing equal to the probe, or null |
| SearchTree.BST.SearchRecursive | BST.java:78-90 | the subtree reached is null exactly when nothing compares equal; otherwise its element is the match |
| SearchTree.BST.InOrderTraversal | BST.java:96-101 | a null action throws; otherwise the action sees every stored element once, in strictly ascending order |
| SearchTree.BST.InOrderWalk | BST.java:103-109 | the left, node, right walk appends each visited `data` to what the action already received: the result is the received prefix followed by the subtree's in-order sequence |
| SearchTree.BST.ReverseInOrderTraversal | BST.java:115-120 | a null action throws; otherwise the action sees the ascending contents reversed, every element once, in strictly descending order |
| SearchTree.BST.ReverseInOrderWalk | BST.java:122-128 | the right, node, left walk appends each visited `data` to what the action already received: the result is the received prefix followed by the subtree's in-order sequence reversed |
| SearchTree.BST.Size | BST.java:134-136 | `size` is the number of stored elements and of nodes |
| SearchTree.BST.IsEmpty | BST.java:142-144 | true exactly when nothing is stored |
| SearchTree.BST.Clear | BST.java:149-152 | the tree becomes valid and empty, with size 0, and every search finds nothing |
| Products.NewProducto | Producto.java:15-32 | a null or blank SKU throws `IllegalArgumentException`; otherwise the stored SKU, name and category are `trim` of the arguments, a null name or category reads as empty, and the prices are kept |
| Products.NewProductoIgnoresSkuPadding | Producto.java:17-27 | whitespace around the SKU does not change the product built |
| Products.NewProbe | Producto.java:37-39 | a null or blank SKU throws `IllegalArgumentException`; otherwise the probe holds the trimmed SKU, zero prices and an empty name and category |
| Products.NewProbeOfTrimmed | Producto.java:37-39 | a probe for a trimmed, non-empty SKU carries that SKU unchanged |
| Products.CompareTo | Producto.java:66-71 | positive against null; otherwise its sign is the SKU order, and it is zero exactly when the SKUs are equal |
| Products.CmpIsComparator | Producto.java:66-71 | `Producto.compareTo` honours the `Comparable` contract |
| Products.Equals | Producto.java:77-83 | false for null and for another class; for a product, true exactly when `compareTo` is zero |
| Products.EqualsIsEquivalence | Producto.java:77-83 | `equals` on products is reflexive, symmetric and transitive |
| Catalog.LastWithSku | BuscadorProductos.java:35-37 | the last product of a list with a given SKU, and none exactly when no product has it |
| Catalog.LoadedIsSorted | BuscadorProductos.java:35-37 | a load leaves the products strictly sorted by SKU |
| Catalog.LoadedFindsLastWithSku | BuscadorProductos.java:35-37 | after a load, a lookup of any SKU finds the last product of the list with that SKU |
| Catalog.LoadedLength | BuscadorProductos.java:35-39 | a load keeps one product per distinct SKU of the list |
| Catalog.GrowsByNewSku | BuscadorProductos.java:36 | one more insert grows the load by one exactly when its SKU is new |
| Catalog.SkusOfSnoc | BuscadorProductos.java:35-37 | the SKUs of a list with one more product are the old SKUs plus its SKU |
| Catalog.LoadedSkus | BuscadorProductos.java:35-37 | the SKUs stored after a load are exactly the SKUs of the list |
| Catalog.BuscadorProductos.constructor | BuscadorProductos.java:19-21 | a new catalog owns a fresh, empty, valid tree ordered by `Producto.compareTo` |
| Catalog.BuscadorProductos.CargarProductos | BuscadorProductos.java:28-40 | a failed read passes its exception on and leaves the tree untouched; otherwise the tree holds exactly the upserts of the list's products in list order |
| Catalog.BuscadorProductos.BuscarProductoPorSku | BuscadorProductos.java:47-52 | a null or blank SKU finds nothing; a result is a stored product whose SKU is the trimmed query; no result means no stored product has that SKU |
| Catalog.AddEach | BuscadorProductos.java:59-61 | `productos::add` on a new list, once per product the action receives, leaves the list equal to the received sequence |
| Catalog.BuscadorProductos.ListarProductosAscendente | BuscadorProductos.java:58-62 | the list is the tree's contents: every stored product once, in strictly ascending SKU order |
| Catalog.BuscadorProductos.ListarProductosDescendente | BuscadorProductos.java:68-72 | the list is the ascending contents reversed: every stored product once, in strictly descending SKU order |
| Catalog.LookupAfterLoad | BuscadorProductos.java:47-52 | after a load, a lookup returns the last product of the list whose SKU is the trimmed query |
| Catalog.SizeAfterLoad | BuscadorProductos.java:39 | after a load the tree's size is the number of distinct SKUs in the list |
| Scenarios.IntCompare | BSTTest.java:10 | `Integer.compareTo` is negative, zero or positive as the first integer is below, equal to or above the second |
| Scenarios.IntCompareIsComparator | BSTTest.java:10 | `Integer.compareTo` honours the `Comparable` contract |
| Scenarios.StringCompareIsComparator | BSTTest.java:11 | `String.compareTo` honours the `Comparable` contract |
| Scenarios.InsertAndSizeInteger | BSTTest.java:23-38 | inserting 10, 5, 15 gives sizes 1, 2, 3; inserting 10 again keeps 3 |
| Scenarios.SearchInteger | BSTTest.java:41-57 | an empty tree finds nothing; after 10, 5, 15, 3, 7 each is found and 20 is not |
| Scenarios.InsertAndSizeString | BSTTest.java:60-75 | "banana", "apple", "cherry" give sizes 1, 2, 3; "banana" again keeps 3 |
| Scenarios.BananaAppleCherry | BSTTest.java:81-83 | those three inserts store the strings in alphabetical order |
| Scenarios.SearchString | BSTTest.java:78-90 | an empty tree finds nothing; each inserted string is found and "orange" is not |
| Scenarios.InsertAndSizeProducto | BSTTest.java:93-113 | SKU001, SKU002, SKU003 give sizes 1, 2, 3; a second SKU001 keeps 3 and takes the first one's place |
| Scenarios.FirstProductBuilt | BSTTest.java:117 | the constructor keeps the test product's SKU, prices, name and category |
| Scenarios.ProbesBuilt | BSTTest.java:128-138 | the one-argument constructor makes a zero-price probe for SKU001 and for SKU004 |
| Scenarios.SearchProducto | BSTTest.java:116-140 | an empty tree finds nothing; the SKU001 probe finds the stored product with all its fields; the SKU004 probe finds nothing |
| Scenarios.ClearInteger | BSTTest.java:143-152 | after `clear` the size is 0 and 10 is not found |
| Scenarios.NullArguments | BSTTest.java:154-162 | inserting or searching for null throws `IllegalArgumentException` |
| Scenarios.LoadAndLookUp | BuscadorProductos.java:28-52 | a catalog loaded with SKU001, SKU002 and a later SKU001 holds two products, and a padded query for SKU001 finds the later one |

## Left out

- Reading the CSV file (`CSVHandler.cargarProductosDesdeCSV`) is not part of this model. `CargarProductos` takes the outcome of that read, a product list or an `IOException`, as its parameter.
- The console menu, `main`, the Swing file chooser and the `System.out.println` messages are I/O and are not modelled.
- SearchTree.BST: the nodes below the root are immutable values (`Tree`), not heap objects. `insertRecursive` writes `current.left`, `current.right` and `current.data` in place. The model returns a rebuilt subtree instead, so node aliasing and in-place node updates are not captured. The element stored and the tree's shape are the same.
- SearchTree.BST.InsertRecursive / SearchRecursive / InOrderWalk / ReverseInOrderWalk: stack exhaustion on a deep tree is not modelled. Each recursive call goes one tree level deeper, and the tree never rebalances, so a list already sorted by SKU builds a chain as deep as the list. On a long enough chain the JVM throws `StackOverflowError`, which no caller catches. The model recurses without limit. `CargarProductos`'s postcondition therefore assumes the load completes; in Java an overflow would leave the tree cleared and partly loaded.
- SearchTree.BST.Size: Java's `int size` could overflow past 2^31 - 1 elements. The model uses an unbounded integer.
- SearchTree.BST.InOrderTraversal / ReverseInOrderTraversal: an action that throws, stopping the walk partway through, is not modelled. The action is always applied to every element. The catalog's only action, `productos::add` on an `ArrayList`, does not throw.
- Products.Equals: the `this == obj` reference shortcut is not modelled separately. Products are values, so it gives the same answer as the SKU comparison.
- `hashCode`, `toString` and the getters are left out. The getters are the datatype's field selectors; `hashCode` and `toString` carry no property the catalog relies on.
- Prices are Java `double`s that the core only stores and returns. They are modelled as `real`, with no floating-point rounding. A `real` cannot hold NaN, positive or negative infinity, or -0.0, so a product with such a price is not modelled.
- A `null` element inside the loaded product list is not modelled: `CargarProductos` takes a list of products. In Java, `insert(null)` would throw partway through the load.
- The `Comparable` contract for a generic `E` is a precondition of the `BST` constructor (`Comparator(cmp)`). It is proved for `Integer`, `String` and `Producto`.
- Scenarios: the test cases' `size()`/`search()` calls after several inserts are stated on `InsertedInOrder` and `Find`. `BST.Insert` and `BST.Search` are proved equal to those, so the scenario lemmas do not call the class's operations insert by insert. `ClearInteger` does not restate the size of 3 before `clear`; `InsertAndSizeInteger` states it.
