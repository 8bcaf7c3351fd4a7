/**
 * The contract of Java's `Comparable.compareTo`, stated for a comparison
 * function `cmp`, and the reference definitions the search tree is specified
 * against: a strictly sorted sequence, the first element equivalent to a probe
 * (`Find`), and insertion that replaces an equivalent element (`Upsert`).
 */
module Ordering {
  import opened Wrappers

  /**
   * `cmp` honours the `Comparable` contract: the sign of `cmp(x, y)` is the
   * opposite of the sign of `cmp(y, x)`, "greater than" is transitive, and
   * elements that compare equal compare alike against every third element.
   */
  ghost predicate Comparator<E(!new)>(cmp: (E, E) -> int) {
    (forall x, y :: cmp(x, y) < 0 <==> cmp(y, x) > 0) &&
    (forall x, y :: cmp(x, y) == 0 <==> cmp(y, x) == 0) &&
    (forall x, y, z :: cmp(x, y) > 0 && cmp(y, z) > 0 ==> cmp(x, z) > 0) &&
    (forall x, y, z :: cmp(x, y) == 0 ==> (cmp(x, z) < 0 <==> cmp(y, z) < 0))
  }

  /** Every element compares strictly below every later one. */
  ghost predicate StrictlySorted<E>(s: seq<E>, cmp: (E, E) -> int) {
    forall i, j | 0 <= i < j < |s| :: cmp(s[i], s[j]) < 0
  }

  /** The first element of `s` that `e` compares equal to, if any. */
  function Find<E>(s: seq<E>, e: E, cmp: (E, E) -> int): (r: Option<E>)
    ensures r.Some? ==> r.value in s && cmp(e, r.value) == 0
    ensures r.None? <==> forall x | x in s :: cmp(e, x) != 0
  {
    if s == [] then None
    else if cmp(e, s[0]) == 0 then Some(s[0])
    else Find(s[1..], e, cmp)
  }

  /**
   * Insertion into a sorted sequence: `e` goes before the first element it
   * compares below, or replaces the first element it compares equal to, or goes
   * at the end.
   */
  function Upsert<E>(s: seq<E>, e: E, cmp: (E, E) -> int): (r: seq<E>)
  {
    if s == [] then [e]
    else if cmp(e, s[0]) < 0 then [e] + s
    else if cmp(e, s[0]) == 0 then [e] + s[1..]
    else [s[0]] + Upsert(s[1..], e, cmp)
  }

  /** What upserting `xs` one by one, from the first, into an empty sequence gives. */
  function InsertedInOrder<E>(xs: seq<E>, cmp: (E, E) -> int): seq<E> {
    if xs == [] then [] else Upsert(InsertedInOrder(xs[..|xs| - 1], cmp), xs[|xs| - 1], cmp)
  }

  /** Inserting one more element upserts it into what the earlier ones gave. */
  lemma InsertedInOrderSnoc<E>(xs: seq<E>, x: E, cmp: (E, E) -> int)
    ensures InsertedInOrder(xs + [x], cmp) == Upsert(InsertedInOrder(xs, cmp), x, cmp)
  {
    assert (xs + [x])[..|xs|] == xs;
  }

  /** The first `i + 1` elements are the first `i` followed by element `i`. */
  lemma PrefixSnoc<E>(s: seq<E>, i: nat)
    requires i < |s|
    ensures s[..i + 1] == s[..i] + [s[i]]
  {
  }

  /** Inserting the first `i + 1` elements upserts the `i`-th into what the first `i` gave. */
  lemma InsertedInOrderPrefix<E>(xs: seq<E>, i: nat, cmp: (E, E) -> int)
    requires i < |xs|
    ensures InsertedInOrder(xs[..i + 1], cmp) == Upsert(InsertedInOrder(xs[..i], cmp), xs[i], cmp)
  {
    PrefixSnoc(xs, i);
    InsertedInOrderSnoc(xs[..i], xs[i], cmp);
  }

  /** The elements of `s` in the opposite order. */
  function Reverse<E>(s: seq<E>): (r: seq<E>)
  {
    if s == [] then [] else Reverse(s[1..]) + [s[0]]
  }

  // ---------------------------------------------------------------------------
  // What an upsert keeps, adds and replaces
  // ---------------------------------------------------------------------------

  /**
   * After an upsert the sequence holds `e`, every old element that `e` does not
   * compare equal to, and nothing else.
   */
  lemma {:induction false} UpsertMembers<E>(s: seq<E>, e: E, cmp: (E, E) -> int)
    ensures e in Upsert(s, e, cmp)
    ensures forall x | x in Upsert(s, e, cmp) :: x == e || x in s
    ensures forall x | x in s && cmp(e, x) != 0 :: x in Upsert(s, e, cmp)
  {
    if s != [] && cmp(e, s[0]) > 0 {
      UpsertMembers(s[1..], e, cmp);
      assert s == [s[0]] + s[1..];
    } else if s != [] && cmp(e, s[0]) == 0 {
      assert s == [s[0]] + s[1..];
    }
  }

  /** "Less than" is transitive for a comparator. */
  lemma LessTransitive<E(!new)>(x: E, y: E, z: E, cmp: (E, E) -> int)
    requires Comparator(cmp) && cmp(x, y) < 0 && cmp(y, z) < 0
    ensures cmp(x, z) < 0
  {
    assert cmp(z, y) > 0 && cmp(y, x) > 0;
  }

  /** An upsert keeps a sorted sequence strictly sorted. */
  lemma {:induction false} UpsertSorted<E(!new)>(s: seq<E>, e: E, cmp: (E, E) -> int)
    requires Comparator(cmp) && StrictlySorted(s, cmp)
    ensures StrictlySorted(Upsert(s, e, cmp), cmp)
  {
    if s == [] {
    } else if cmp(e, s[0]) < 0 {
      SortedCons(e, s, cmp);
    } else {
      SortedTail(s, cmp);
      if cmp(e, s[0]) == 0 {
        if |s| > 1 {
          assert cmp(s[0], s[1]) < 0;
        }
        SortedCons(e, s[1..], cmp);
      } else {
        var t := Upsert(s[1..], e, cmp);
        UpsertSorted(s[1..], e, cmp);
        assert t[0] == e || (|s| > 1 && t[0] == s[1]);
        if t[0] != e {
          assert cmp(s[0], s[1]) < 0;
        } else {
          assert cmp(s[0], e) < 0;
        }
        SortedCons(s[0], t, cmp);
      }
    }
  }

  lemma SortedTail<E>(s: seq<E>, cmp: (E, E) -> int)
    requires s != [] && StrictlySorted(s, cmp)
    ensures StrictlySorted(s[1..], cmp)
  {
    forall i, j | 0 <= i < j < |s| - 1 ensures cmp(s[1..][i], s[1..][j]) < 0 {
      assert s[1..][i] == s[i + 1] && s[1..][j] == s[j + 1];
    }
  }

  lemma SortedCons<E(!new)>(x: E, t: seq<E>, cmp: (E, E) -> int)
    requires Comparator(cmp) && StrictlySorted(t, cmp)
    requires t != [] ==> cmp(x, t[0]) < 0
    ensures StrictlySorted([x] + t, cmp)
  {
    var r := [x] + t;
    forall i, j | 0 <= i < j < |r| ensures cmp(r[i], r[j]) < 0 {
      assert r[j] == t[j - 1];
      if i == 0 {
        if j > 1 {
          LessTransitive(x, t[0], t[j - 1], cmp);
        }
      } else {
        assert r[i] == t[i - 1];
      }
    }
  }

  /**
   * An upsert grows a strictly sorted sequence by one element exactly when no
   * element compares equal to the new one; otherwise the length is unchanged.
   */
  lemma {:induction false} UpsertLength<E(!new)>(s: seq<E>, e: E, cmp: (E, E) -> int)
    requires Comparator(cmp) && StrictlySorted(s, cmp)
    ensures |Upsert(s, e, cmp)| == if Find(s, e, cmp).None? then |s| + 1 else |s|
  {
    if s != [] {
      if cmp(e, s[0]) < 0 {
        forall x | x in s ensures cmp(e, x) != 0 {
          var j :| 0 <= j < |s| && s[j] == x;
          assert j == 0 || cmp(s[0], s[j]) < 0;
        }
      } else if cmp(e, s[0]) > 0 {
        UpsertLength(s[1..], e, cmp);
      }
    }
  }

  /**
   * Last write wins: after upserting `e`, a probe that compares equal to `e`
   * finds `e`, and every other probe finds what it found before.
   */
  lemma {:induction false} FindAfterUpsert<E(!new)>(s: seq<E>, e: E, p: E, cmp: (E, E) -> int)
    requires Comparator(cmp)
    ensures Find(Upsert(s, e, cmp), p, cmp) == if cmp(p, e) == 0 then Some(e) else Find(s, p, cmp)
  {
    if s != [] && cmp(e, s[0]) == 0 {
      assert cmp(p, e) != 0 ==> cmp(p, s[0]) != 0;
      assert Upsert(s, e, cmp)[1..] == s[1..];
    } else if s != [] && cmp(e, s[0]) > 0 {
      FindAfterUpsert(s[1..], e, p, cmp);
      assert Upsert(s, e, cmp)[1..] == Upsert(s[1..], e, cmp);
    } else if s != [] {
      assert Upsert(s, e, cmp)[1..] == s;
    }
  }

  // ---------------------------------------------------------------------------
  // Upsert and Find across a tree node: left subtree, node, right subtree
  // ---------------------------------------------------------------------------

  /** Every element of `s` compares strictly below `d`. */
  ghost predicate AllBelow<E>(s: seq<E>, d: E, cmp: (E, E) -> int) {
    forall x | x in s :: cmp(x, d) < 0
  }

  /** Every element of `s` compares strictly above `d`. */
  ghost predicate AllAbove<E>(s: seq<E>, d: E, cmp: (E, E) -> int) {
    forall x | x in s :: cmp(x, d) > 0
  }

  /** Upserting into `l + [d] + r` below `d` upserts into `l`. */
  lemma {:induction false} UpsertBelowNode<E(!new)>(l: seq<E>, d: E, r: seq<E>, e: E, cmp: (E, E) -> int)
    requires AllBelow(l, d, cmp) && cmp(e, d) < 0
    ensures Upsert(l + [d] + r, e, cmp) == Upsert(l, e, cmp) + [d] + r
  {
    if l != [] {
      assert (l + [d] + r)[1..] == l[1..] + [d] + r;
      UpsertBelowNode(l[1..], d, r, e, cmp);
    }
  }

  /** `e` compares strictly above every element of `s`. */
  ghost predicate Exceeds<E>(e: E, s: seq<E>, cmp: (E, E) -> int) {
    forall x | x in s :: cmp(e, x) > 0
  }

  /** An element at or above a node exceeds everything below the node. */
  lemma ExceedsBelow<E(!new)>(l: seq<E>, d: E, e: E, cmp: (E, E) -> int)
    requires Comparator(cmp) && AllBelow(l, d, cmp) && cmp(e, d) >= 0
    ensures Exceeds(e, l, cmp)
  {
    forall x | x in l ensures cmp(e, x) > 0 {
      assert cmp(d, x) > 0;
    }
  }

  /** Upserting into `l + [d] + r` above `d` upserts into `r`. */
  lemma {:induction false} UpsertAboveNode<E>(l: seq<E>, d: E, r: seq<E>, e: E, cmp: (E, E) -> int)
    requires Exceeds(e, l, cmp) && cmp(e, d) > 0
    ensures Upsert(l + [d] + r, e, cmp) == l + [d] + Upsert(r, e, cmp)
  {
    if l == [] {
      assert l + [d] + r == [d] + r && ([d] + r)[1..] == r;
    } else {
      var s := l + [d] + r;
      assert s[0] == l[0] && s[1..] == l[1..] + [d] + r;
      assert cmp(e, l[0]) > 0;
      assert Exceeds(e, l[1..], cmp) by {
        forall x | x in l[1..] ensures cmp(e, x) > 0 {
          assert x in l;
        }
      }
      UpsertAboveNode(l[1..], d, r, e, cmp);
      assert [l[0]] + (l[1..] + [d] + Upsert(r, e, cmp)) == l + [d] + Upsert(r, e, cmp);
    }
  }

  /** Upserting into `l + [d] + r` an element equal to `d` replaces `d`. */
  lemma {:induction false} UpsertAtNode<E>(l: seq<E>, d: E, r: seq<E>, e: E, cmp: (E, E) -> int)
    requires Exceeds(e, l, cmp) && cmp(e, d) == 0
    ensures Upsert(l + [d] + r, e, cmp) == l + [e] + r
  {
    if l == [] {
      assert l + [d] + r == [d] + r && ([d] + r)[1..] == r;
    } else {
      var s := l + [d] + r;
      assert s[0] == l[0] && s[1..] == l[1..] + [d] + r;
      assert cmp(e, l[0]) > 0;
      assert Exceeds(e, l[1..], cmp) by {
        forall x | x in l[1..] ensures cmp(e, x) > 0 {
          assert x in l;
        }
      }
      UpsertAtNode(l[1..], d, r, e, cmp);
      assert [l[0]] + (l[1..] + [e] + r) == l + [e] + r;
    }
  }

  /** Replacing `d` by an element that compares equal to it keeps the node ordered. */
  lemma ReplaceKeepsOrder<E(!new)>(l: seq<E>, d: E, r: seq<E>, e: E, cmp: (E, E) -> int)
    requires Comparator(cmp) && AllBelow(l, d, cmp) && AllAbove(r, d, cmp) && cmp(e, d) == 0
    ensures AllBelow(l, e, cmp) && AllAbove(r, e, cmp)
  {
    forall x | x in l ensures cmp(x, e) < 0 {
      assert cmp(d, x) > 0 && cmp(d, e) == 0;
    }
    forall x | x in r ensures cmp(x, e) > 0 {
      assert cmp(d, x) < 0 && cmp(d, e) == 0;
    }
  }

  /** `Find` on a concatenation looks in the first part, then in the second. */
  lemma {:induction false} FindAppend<E>(a: seq<E>, b: seq<E>, e: E, cmp: (E, E) -> int)
    ensures Find(a + b, e, cmp) == if Find(a, e, cmp).Some? then Find(a, e, cmp) else Find(b, e, cmp)
  {
    if a != [] {
      assert (a + b)[1..] == a[1..] + b;
      FindAppend(a[1..], b, e, cmp);
    } else {
      assert a + b == b;
    }
  }

  /**
   * In `l + [d] + r` ordered around `d`, a probe below `d` can only be found in
   * `l`, a probe above `d` only in `r`, and a probe equal to `d` finds `d`.
   */
  lemma FindAroundNode<E(!new)>(l: seq<E>, d: E, r: seq<E>, e: E, cmp: (E, E) -> int)
    requires Comparator(cmp) && AllBelow(l, d, cmp) && AllAbove(r, d, cmp)
    ensures cmp(e, d) < 0 ==> Find(l + [d] + r, e, cmp) == Find(l, e, cmp)
    ensures cmp(e, d) == 0 ==> Find(l + [d] + r, e, cmp) == Some(d)
    ensures cmp(e, d) > 0 ==> Find(l + [d] + r, e, cmp) == Find(r, e, cmp)
  {
    assert l + [d] + r == l + ([d] + r);
    FindAppend(l, [d] + r, e, cmp);
    assert ([d] + r)[0] == d && ([d] + r)[1..] == r;
    if cmp(e, d) < 0 {
      NoneAboveNode(r, d, e, cmp);
    } else {
      NoneBelowNode(l, d, e, cmp);
    }
  }

  /** Nothing above a node compares equal to an element below the node. */
  lemma NoneAboveNode<E(!new)>(r: seq<E>, d: E, e: E, cmp: (E, E) -> int)
    requires Comparator(cmp) && AllAbove(r, d, cmp) && cmp(e, d) < 0
    ensures Find(r, e, cmp).None?
  {
    forall x | x in r ensures cmp(e, x) != 0 {
      assert cmp(d, e) > 0;
    }
  }

  /** Nothing below a node compares equal to an element at or above the node. */
  lemma NoneBelowNode<E(!new)>(l: seq<E>, d: E, e: E, cmp: (E, E) -> int)
    requires Comparator(cmp) && AllBelow(l, d, cmp) && cmp(e, d) >= 0
    ensures Find(l, e, cmp).None?
  {
    forall x | x in l ensures cmp(e, x) != 0 {
      assert cmp(d, x) > 0;
    }
  }

  /** A node ordered around `d` over sorted subtrees gives a sorted sequence. */
  lemma SortedAroundNode<E(!new)>(l: seq<E>, d: E, r: seq<E>, cmp: (E, E) -> int)
    requires Comparator(cmp) && AllBelow(l, d, cmp) && AllAbove(r, d, cmp)
    requires StrictlySorted(l, cmp) && StrictlySorted(r, cmp)
    ensures StrictlySorted(l + [d] + r, cmp)
  {
    var s := l + [d] + r;
    forall i, j | 0 <= i < j < |s| ensures cmp(s[i], s[j]) < 0 {
      if i < |l| && j == |l| {
        assert s[i] in l;
      } else if i < |l| && j > |l| {
        assert s[i] in l && s[j] in r;
        assert cmp(s[j], d) > 0 && cmp(d, s[i]) > 0;
      } else if i == |l| {
        assert s[j] in r;
      } else if j < |l| {
        assert s[i] == l[i] && s[j] == l[j];
      } else {
        assert s[i] == r[i - |l| - 1] && s[j] == r[j - |l| - 1];
      }
    }
  }

  /** Reversing `l + [d] + r` gives the reversed parts in the opposite order. */
  lemma {:induction false} ReverseAroundNode<E>(l: seq<E>, d: E, r: seq<E>)
    ensures Reverse(l + [d] + r) == Reverse(r) + [d] + Reverse(l)
  {
    ReverseAppend(l, [d] + r);
    ReverseAppend([d], r);
    assert l + [d] + r == l + ([d] + r);
    assert Reverse([d]) == [d] by { assert [d][1..] == []; }
  }

  lemma {:induction false} ReverseAppend<E>(a: seq<E>, b: seq<E>)
    ensures Reverse(a + b) == Reverse(b) + Reverse(a)
  {
    if a == [] {
      assert a + b == b;
    } else {
      assert (a + b)[1..] == a[1..] + b;
      ReverseAppend(a[1..], b);
    }
  }

  /** Element `k` of the reversal is element `|s| - 1 - k` of `s`. */
  lemma {:induction false} ReverseAt<E>(s: seq<E>, k: int)
    requires 0 <= k < |s|
    ensures |Reverse(s)| == |s| && Reverse(s)[k] == s[|s| - 1 - k]
  {
    ReverseLength(s);
    if k < |s| - 1 {
      ReverseAt(s[1..], k);
    }
  }

  lemma {:induction false} ReverseLength<E>(s: seq<E>)
    ensures |Reverse(s)| == |s|
  {
    if s != [] {
      ReverseLength(s[1..]);
    }
  }

  /** Every element compares strictly above every later one. */
  ghost predicate StrictlyDescending<E>(s: seq<E>, cmp: (E, E) -> int) {
    forall i, j | 0 <= i < j < |s| :: cmp(s[i], s[j]) > 0
  }

  /** Reversing a strictly ascending sequence gives a strictly descending one. */
  lemma ReverseOfSortedIsDescending<E(!new)>(s: seq<E>, cmp: (E, E) -> int)
    requires Comparator(cmp) && StrictlySorted(s, cmp)
    ensures StrictlyDescending(Reverse(s), cmp)
  {
    ReverseLength(s);
    var r := Reverse(s);
    forall i, j | 0 <= i < j < |r| ensures cmp(r[i], r[j]) > 0 {
      ReverseAt(s, i);
      ReverseAt(s, j);
      assert cmp(s[|s| - 1 - j], s[|s| - 1 - i]) < 0;
    }
  }
}
