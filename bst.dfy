/**
 * `BST<E>`: an unbalanced binary search tree ordered by the elements'
 * `compareTo` (the function `cmp` here). Insertion is an upsert, a search
 * returns the stored element that compares equal to the probe, and the two
 * traversals visit every element in ascending or descending order.
 *
 * The tree object keeps its two mutable fields, `root` and `size`; the nodes
 * below the root are values (`Tree`), so "the node returned by
 * `insertRecursive`" is the rebuilt subtree. The abstract value of a tree is its
 * in-order sequence of elements, which `Valid()` keeps strictly sorted by `cmp`.
 */
module SearchTree {
  import opened Wrappers
  import opened Ordering

  /** `BSTNode`: one element and its two subtrees; `Nil` is a null child. */
  datatype Tree<E> = Nil | Node(left: Tree<E>, data: E, right: Tree<E>)

  /** The in-order sequence of the elements of `t`. */
  ghost function Elems<E>(t: Tree<E>): seq<E> {
    if t.Nil? then [] else Elems(t.left) + [t.data] + Elems(t.right)
  }

  /**
   * The search-tree order: at every node, each element of the left subtree
   * compares below the node's element and each one of the right subtree above.
   */
  ghost predicate Ordered<E>(t: Tree<E>, cmp: (E, E) -> int) {
    t.Node? ==>
      Ordered(t.left, cmp) && Ordered(t.right, cmp) &&
      AllBelow(Elems(t.left), t.data, cmp) && AllAbove(Elems(t.right), t.data, cmp)
  }

  /** The in-order sequence of an ordered tree is strictly sorted. */
  lemma {:induction false} OrderedIsSorted<E(!new)>(t: Tree<E>, cmp: (E, E) -> int)
    requires Comparator(cmp) && Ordered(t, cmp)
    ensures StrictlySorted(Elems(t), cmp)
  {
    if t.Node? {
      OrderedIsSorted(t.left, cmp);
      OrderedIsSorted(t.right, cmp);
      SortedAroundNode(Elems(t.left), t.data, Elems(t.right), cmp);
    }
  }

  /** The number of nodes of `t`, one per stored element. */
  function NodeCount<E>(t: Tree<E>): (c: nat)
    ensures c == |Elems(t)|
  {
    if t.Nil? then 0 else NodeCount(t.left) + 1 + NodeCount(t.right)
  }

  class BST<E(!new)> {
    var root: Tree<E>
    var size: int
    /** The elements' `compareTo`: negative, zero or positive. */
    const cmp: (E, E) -> int

    /**
     * The tree invariant: `cmp` is a lawful comparison, the root is a search
     * tree, and `size` is the number of stored elements.
     */
    ghost predicate Valid()
      reads this
    {
      Comparator(cmp) && Ordered(root, cmp) && size == |Elems(root)|
    }

    /** The stored elements in in-order, that is strictly ascending, order. */
    ghost function Contents(): (s: seq<E>)
      reads this
      requires Valid()
      ensures StrictlySorted(s, cmp)
    {
      OrderedIsSorted(root, cmp);
      Elems(root)
    }

    /** `new BST<>()`: an empty tree. */
    constructor (cmp: (E, E) -> int)
      requires Comparator(cmp)
      ensures Valid() && this.cmp == cmp
      ensures Contents() == []
    {
      root := Nil;
      size := 0;
      this.cmp := cmp;
    }

    /**
     * `insert`: a null element is rejected before anything changes; otherwise
     * the element is upserted and `size` grows exactly when no stored element
     * compared equal to it.
     */
    method Insert(element: Option<E>) returns (outcome: Outcome<Exception>)
      requires Valid()
      modifies this
      ensures Valid()
      ensures element.None? ==> outcome == Fail(IllegalArgumentException) && unchanged(this)
      ensures element.Some? ==>
        outcome == Pass && Contents() == Upsert(old(Contents()), element.value, cmp)
      ensures element.Some? ==>
        Size() == old(Size()) + if Find(old(Contents()), element.value, cmp).None? then 1 else 0
    {
      if element.None? {
        return Fail(IllegalArgumentException);
      }
      ghost var before := Contents();
      root := InsertRecursive(root, element.value);
      UpsertLength(before, element.value, cmp);
      outcome := Pass;
    }

    /**
     * `insertRecursive`: the subtree with `element` upserted. A new leaf is made
     * (and `size` incremented) at an empty slot; an equal element takes the
     * place of the node's element; otherwise the walk continues to one side.
     */
    method InsertRecursive(current: Tree<E>, element: E) returns (r: Tree<E>)
      requires Comparator(cmp) && Ordered(current, cmp)
      modifies this`size
      decreases current
      ensures Ordered(r, cmp) && r.Node?
      ensures Elems(r) == Upsert(Elems(current), element, cmp)
      ensures size == old(size) + |Elems(r)| - |Elems(current)|
    {
      if current.Nil? {
        size := size + 1;
        return Node(Nil, element, Nil);
      }
      var l, d, rt := current.left, current.data, current.right;
      var compareResult := cmp(element, d);
      if compareResult < 0 {
        var newLeft := InsertRecursive(l, element);
        r := Node(newLeft, d, rt);
        UpsertBelowNode(Elems(l), d, Elems(rt), element, cmp);
        UpsertMembers(Elems(l), element, cmp);
      } else if compareResult > 0 {
        var newRight := InsertRecursive(rt, element);
        r := Node(l, d, newRight);
        ExceedsBelow(Elems(l), d, element, cmp);
        UpsertAboveNode(Elems(l), d, Elems(rt), element, cmp);
        UpsertMembers(Elems(rt), element, cmp);
      } else {
        r := Node(l, element, rt);
        ExceedsBelow(Elems(l), d, element, cmp);
        UpsertAtNode(Elems(l), d, Elems(rt), element, cmp);
        ReplaceKeepsOrder(Elems(l), d, Elems(rt), element, cmp);
      }
    }

    /**
     * `search`: a null probe is rejected; otherwise the result is the stored
     * element that compares equal to the probe, or none.
     */
    function Search(element: Option<E>): (r: Result<Option<E>, Exception>)
      requires Valid()
      reads this
      ensures element.None? ==> r == Failure(IllegalArgumentException)
      ensures element.Some? ==> r == Success(Find(Contents(), element.value, cmp))
    {
      if element.None? then Failure(IllegalArgumentException)
      else
        var result := SearchRecursive(root, element.value);
        Success(if result.Nil? then None else Some(result.data))
    }

    /** `searchRecursive`: the subtree whose root element compares equal to `element`. */
    function SearchRecursive(current: Tree<E>, element: E): (r: Tree<E>)
      requires Comparator(cmp) && Ordered(current, cmp)
      reads this
      ensures r.Nil? <==> Find(Elems(current), element, cmp).None?
      ensures r.Node? ==> Find(Elems(current), element, cmp) == Some(r.data)
    {
      if current.Nil? then Nil
      else
        FindAroundNode(Elems(current.left), current.data, Elems(current.right), element, cmp);
        if cmp(element, current.data) == 0 then current
        else if cmp(element, current.data) < 0 then SearchRecursive(current.left, element)
        else SearchRecursive(current.right, element)
    }

    /**
     * `inOrderTraversal(action)`: a null action is rejected; otherwise the
     * result is the sequence of elements the action receives, one call per
     * stored element, in strictly ascending order.
     */
    function InOrderTraversal<A>(action: Option<A>): (r: Result<seq<E>, Exception>)
      requires Valid()
      reads this
      ensures action.None? ==> r == Failure(IllegalArgumentException)
      ensures action.Some? ==> r == Success(Contents())
      ensures action.Some? ==> |r.value| == Size() && StrictlySorted(r.value, cmp)
    {
      if action.None? then Failure(IllegalArgumentException)
      else
        assert [] + Elems(root) == Elems(root);
        Success(InOrderWalk(root, []))
    }

    /**
     * The recursive left, node, right walk behind `inOrderTraversal`. `acc` is
     * what the action has received so far; each visited element is appended.
     */
    function InOrderWalk(node: Tree<E>, acc: seq<E>): (r: seq<E>)
      ensures r == acc + Elems(node)
    {
      if node.Nil? then acc
      else
        var afterLeft := InOrderWalk(node.left, acc);
        var r := InOrderWalk(node.right, afterLeft + [node.data]);
        assert r == acc + (Elems(node.left) + [node.data] + Elems(node.right));
        r
    }

    /**
     * `reverseInOrderTraversal(action)`: a null action is rejected; otherwise
     * the action receives the in-order sequence reversed, that is every element
     * once in strictly descending order.
     */
    function ReverseInOrderTraversal<A>(action: Option<A>): (r: Result<seq<E>, Exception>)
      requires Valid()
      reads this
      ensures action.None? ==> r == Failure(IllegalArgumentException)
      ensures action.Some? ==> r == Success(Reverse(Contents()))
      ensures action.Some? ==> |r.value| == Size() && StrictlyDescending(r.value, cmp)
    {
      if action.None? then Failure(IllegalArgumentException)
      else
        ReverseOfSortedIsDescending(Contents(), cmp);
        ReverseLength(Contents());
        assert [] + Reverse(Elems(root)) == Reverse(Elems(root));
        Success(ReverseInOrderWalk(root, []))
    }

    /**
     * The recursive right, node, left walk behind `reverseInOrderTraversal`,
     * appending each visited element to what the action has received so far.
     */
    function ReverseInOrderWalk(node: Tree<E>, acc: seq<E>): (r: seq<E>)
      ensures r == acc + Reverse(Elems(node))
    {
      if node.Nil? then acc
      else
        var afterRight := ReverseInOrderWalk(node.right, acc);
        var r := ReverseInOrderWalk(node.left, afterRight + [node.data]);
        ReverseAroundNode(Elems(node.left), node.data, Elems(node.right));
        assert r == acc + (Reverse(Elems(node.right)) + [node.data] + Reverse(Elems(node.left)));
        r
    }

    /** `size()`: the number of stored elements, which is the number of nodes. */
    function Size(): (n: int)
      reads this
      requires Valid()
      ensures n == |Contents()| && n == NodeCount(root)
    {
      size
    }

    /** `isEmpty()`: true exactly when nothing is stored. */
    function IsEmpty(): (b: bool)
      reads this
      requires Valid()
      ensures b <==> Contents() == []
    {
      size == 0
    }

    /** `clear()`: drops every node; afterwards every search finds nothing. */
    method Clear()
      requires Valid()
      modifies this
      ensures Valid()
      ensures Contents() == [] && Size() == 0 && IsEmpty()
      ensures forall x :: Search(Some(x)) == Success(None)
    {
      root := Nil;
      size := 0;
    }
  }
}
