/**
 * The parts of `java.lang.String` the catalog relies on: a string is a sequence
 * of UTF-16 code units, `compareTo` orders strings lexicographically by code
 * unit, and `trim` strips the code units up to U+0020 from both ends.
 */
module JavaString {

  /** One UTF-16 code unit, Java's `char`. */
  newtype CodeUnit = x: int | 0 <= x < 0x1_0000

  /** A Java `String`: a finite sequence of UTF-16 code units. */
  type JString = seq<CodeUnit>

  // ---------------------------------------------------------------------------
  // compareTo
  // ---------------------------------------------------------------------------

  /**
   * `String.compareTo`: at the first index where the two strings differ, the
   * difference of the code units there; when one string is a prefix of the
   * other, the difference of the lengths. Zero exactly when the strings are equal.
   */
  function CompareTo(a: JString, b: JString): (r: int)
    ensures r == 0 <==> a == b
    decreases |a|
  {
    if a == [] || b == [] then |a| - |b|
    else if a[0] != b[0] then a[0] as int - b[0] as int
    else
      assert a == [a[0]] + a[1..] && b == [b[0]] + b[1..];
      CompareTo(a[1..], b[1..])
  }

  /** The strict order the catalog sorts SKUs by: `a.compareTo(b) < 0`. */
  predicate Less(a: JString, b: JString) {
    CompareTo(a, b) < 0
  }

  /**
   * Lexicographic order written out independently of `CompareTo`: `a` is a
   * proper prefix of `b`, or at the first position where they differ `a` has
   * the smaller code unit.
   */
  ghost predicate LexLess(a: JString, b: JString) {
    (|a| < |b| && a == b[..|a|]) ||
    (exists k :: 0 <= k < |a| && k < |b| && a[..k] == b[..k] && a[k] < b[k])
  }

  /** `compareTo` is exactly the lexicographic order by UTF-16 code unit. */
  lemma {:induction false} CompareToIsLexicographic(a: JString, b: JString)
    ensures Less(a, b) <==> LexLess(a, b)
    decreases |a|
  {
    if a == [] || b == [] {
    } else if a[0] != b[0] {
      if a[0] < b[0] {
        assert a[..0] == b[..0];
      } else {
        forall k | 0 < k < |a| && k < |b| ensures a[..k] != b[..k] {
          assert a[..k][0] == a[0] && b[..k][0] == b[0];
        }
        if |a| < |b| {
          assert b[..|a|][0] == b[0];
        }
      }
    } else {
      var a', b' := a[1..], b[1..];
      CompareToIsLexicographic(a', b');
      assert CompareTo(a, b) == CompareTo(a', b');
      // a proper-prefix witness shifts by one position
      if |a| < |b| {
        calc {
          a == b[..|a|];
        <==> { assert a == [a[0]] + a' && b[..|a|] == [b[0]] + b'[..|a'|]; }
          a' == b'[..|a'|];
        }
      }
      // a differing-position witness shifts by one position
      if k :| 0 <= k < |a| && k < |b| && a[..k] == b[..k] && a[k] < b[k] {
        assert k != 0;
        assert a'[..k - 1] == a[1..k] == b[1..k] == b'[..k - 1];
        assert a'[k - 1] < b'[k - 1];
      }
      if k' :| 0 <= k' < |a'| && k' < |b'| && a'[..k'] == b'[..k'] && a'[k'] < b'[k'] {
        assert a[..k' + 1] == [a[0]] + a'[..k'] && b[..k' + 1] == [b[0]] + b'[..k'];
        assert a[k' + 1] < b[k' + 1];
      }
    }
  }

  /**
   * Where the two strings first differ, at index `k`, `compareTo` is the
   * difference of the two code units there.
   */
  lemma {:induction false} CompareToAtFirstDifference(a: JString, b: JString, k: nat)
    requires k < |a| && k < |b| && a[..k] == b[..k] && a[k] != b[k]
    ensures CompareTo(a, b) == a[k] as int - b[k] as int
    decreases k
  {
    if k > 0 {
      assert a[0] == a[..k][0] && b[0] == b[..k][0];
      assert a[1..][..k - 1] == a[..k][1..] && b[1..][..k - 1] == b[..k][1..];
      CompareToAtFirstDifference(a[1..], b[1..], k - 1);
    }
  }

  /** `a.compareTo(b) == -b.compareTo(a)`. */
  lemma {:induction false} CompareToAntisymmetric(a: JString, b: JString)
    ensures CompareTo(a, b) == -CompareTo(b, a)
    decreases |a|
  {
    if a != [] && b != [] && a[0] == b[0] {
      CompareToAntisymmetric(a[1..], b[1..]);
    }
  }

  /** `compareTo` is transitive: `a < b` and `b < c` give `a < c`. */
  lemma {:induction false} CompareToTransitive(a: JString, b: JString, c: JString)
    requires Less(a, b) && Less(b, c)
    ensures Less(a, c)
    decreases |a|
  {
    if a != [] && b != [] && c != [] && a[0] == b[0] == c[0] {
      CompareToTransitive(a[1..], b[1..], c[1..]);
    }
  }

  /** `Less` is a strict total order on Java strings. */
  lemma LessIsStrictTotalOrder()
    ensures forall a :: !Less(a, a)
    ensures forall a, b :: Less(a, b) ==> !Less(b, a)
    ensures forall a, b, c :: Less(a, b) && Less(b, c) ==> Less(a, c)
    ensures forall a, b :: a == b || Less(a, b) || Less(b, a)
  {
    forall a, b ensures CompareTo(a, b) == -CompareTo(b, a) {
      CompareToAntisymmetric(a, b);
    }
    forall a, b, c | Less(a, b) && Less(b, c) ensures Less(a, c) {
      CompareToTransitive(a, b, c);
    }
  }

  // ---------------------------------------------------------------------------
  // trim
  // ---------------------------------------------------------------------------

  /** The code units `String.trim` strips: every one up to and including U+0020. */
  predicate IsSpace(c: CodeUnit) {
    c <= 0x20
  }

  /** True when every code unit is one that `trim` strips (`s.trim().isEmpty()`). */
  predicate IsBlank(s: JString) {
    forall i | 0 <= i < |s| :: IsSpace(s[i])
  }

  /** Neither end of `s` is a code unit that `trim` strips. */
  predicate IsTrimmed(s: JString) {
    s == [] || (!IsSpace(s[0]) && !IsSpace(s[|s| - 1]))
  }

  /** Drops the strippable code units at the front of `s`. */
  function TrimStart(s: JString): (r: JString)
    ensures |r| <= |s| && r == s[|s| - |r|..]
    ensures IsBlank(s[..|s| - |r|])
    ensures r == [] || !IsSpace(r[0])
  {
    if s != [] && IsSpace(s[0]) then TrimStart(s[1..]) else s
  }

  /** Drops the strippable code units at the back of `s`. */
  function TrimEnd(s: JString): (r: JString)
    ensures |r| <= |s| && r == s[..|r|]
    ensures IsBlank(s[|r|..])
    ensures r == [] || !IsSpace(r[|r| - 1])
  {
    if s != [] && IsSpace(s[|s| - 1]) then TrimEnd(s[..|s| - 1]) else s
  }

  /**
   * `String.trim`: the result has no strippable code unit at either end, is
   * empty exactly when `s` is blank, and leaves an already trimmed string alone
   * (so trimming twice is trimming once).
   */
  function Trim(s: JString): (r: JString)
    ensures IsTrimmed(r)
    ensures r == [] <==> IsBlank(s)
    ensures IsTrimmed(s) ==> r == s
  {
    var t := TrimStart(s);
    var r := TrimEnd(t);
    assert r != [] ==> r[0] == t[0];
    assert r == [] ==> IsBlank(s) by {
      if r == [] {
        assert t[0..] == t;
        assert t == [];
        assert s[..|s|] == s;
      }
    }
    assert IsBlank(s) ==> t == [] by {
      if t != [] { assert t[0] == s[|s| - |t|]; }
    }
    r
  }

  /** Surrounding whitespace does not change what `trim` returns. */
  lemma {:induction false} TrimIgnoresPadding(pre: JString, s: JString, post: JString)
    requires IsBlank(pre) && IsBlank(post) && IsTrimmed(s)
    ensures Trim(pre + s + post) == s
  {
    var whole := pre + s + post;
    if s == [] {
      forall i | 0 <= i < |whole| ensures IsSpace(whole[i]) {
        if i < |pre| { assert whole[i] == pre[i]; } else { assert whole[i] == post[i - |pre|]; }
      }
    } else {
      assert whole == pre + (s + post);
      TrimStartDropsBlankPrefix(pre, s + post);
      TrimEndDropsBlankSuffix(s, post);
      assert Trim(whole) == TrimEnd(TrimStart(whole));
    }
  }

  lemma {:induction false} TrimStartDropsBlankPrefix(pre: JString, s: JString)
    requires IsBlank(pre) && s != [] && !IsSpace(s[0])
    ensures TrimStart(pre + s) == s
    decreases |pre|
  {
    if pre != [] {
      assert (pre + s)[1..] == pre[1..] + s;
      TrimStartDropsBlankPrefix(pre[1..], s);
    }
  }

  lemma {:induction false} TrimEndDropsBlankSuffix(s: JString, post: JString)
    requires IsBlank(post) && s != [] && !IsSpace(s[|s| - 1])
    ensures TrimEnd(s + post) == s
    decreases |post|
  {
    if post != [] {
      var p := post[..|post| - 1];
      assert (s + post)[..|s + post| - 1] == s + p;
      TrimEndDropsBlankSuffix(s, p);
    } else {
      assert s + post == s;
    }
  }
}
