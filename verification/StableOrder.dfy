/** Stable sorting (sort.SliceStable): its result is determined by the comparison, as positions of the
    original sequence. */
module StableOrder {

  /** Every position below n, once. */
  ghost predicate Permutes(p: seq<nat>, n: nat)
  {
    && |p| == n
    && (forall i :: 0 <= i < n ==> p[i] < n)
    && (forall i, j :: 0 <= i < j < n ==> p[i] != p[j])
    && (forall k: nat :: k < n ==> k in p)
  }

  function Arranged<T>(s: seq<T>, p: seq<nat>): seq<T>
    requires forall i :: 0 <= i < |p| ==> p[i] < |s|
  {
    seq(|p|, i requires 0 <= i < |p| => s[p[i]])
  }

  /** Position i comes before position j: by the comparison, and at a tie by the original order. */
  predicate Before<T(!new)>(cmp: (T, T) -> int, s: seq<T>, i: nat, j: nat)
    requires i < |s| && j < |s|
  {
    cmp(s[i], s[j]) < 0 || (cmp(s[i], s[j]) == 0 && i < j)
  }

  ghost predicate Mirrors<T(!new)>(cmp: (T, T) -> int)
  {
    forall a, b :: cmp(a, b) == -cmp(b, a)
  }

  /** The comparison orders the elements of s. */
  ghost predicate Orders<T(!new)>(cmp: (T, T) -> int, s: seq<T>)
  {
    forall a, b, c :: a in s && b in s && c in s ==> cmp(a, b) <= 0 && cmp(b, c) <= 0 ==> cmp(a, c) <= 0
  }

  /** p arranges s in order, equal elements in their original order. */
  ghost predicate Stable<T(!new)>(cmp: (T, T) -> int, s: seq<T>, p: seq<nat>)
  {
    Permutes(p, |s|) && forall i, j :: 0 <= i < j < |p| ==> Before(cmp, s, p[i], p[j])
  }

  lemma NotBothBefore<T(!new)>(cmp: (T, T) -> int, s: seq<T>, i: nat, j: nat)
    requires Mirrors(cmp) && i < |s| && j < |s| && Before(cmp, s, i, j)
    ensures !Before(cmp, s, j, i)
  {
    assert cmp(s[i], s[j]) == -cmp(s[j], s[i]);
  }

  /** There is only one stable arrangement. */
  lemma {:induction false} StableIsUnique<T(!new)>(cmp: (T, T) -> int, s: seq<T>, p: seq<nat>, q: seq<nat>, k: nat)
    requires Mirrors(cmp) && Stable(cmp, s, p) && Stable(cmp, s, q) && k < |s|
    ensures p[k] == q[k]
    decreases k
  {
    forall i | 0 <= i < k
      ensures p[i] == q[i]
    {
      StableIsUnique(cmp, s, p, q, i);
    }
    if p[k] != q[k] {
      assert p[k] in q && q[k] in p;
      var m :| 0 <= m < |q| && q[m] == p[k];
      var l :| 0 <= l < |p| && p[l] == q[k];
      assert m > k && l > k;
      NotBothBefore(cmp, s, p[k], p[l]);
      assert false;
    }
  }

  lemma OneStableArrangement<T(!new)>(cmp: (T, T) -> int, s: seq<T>, p: seq<nat>, q: seq<nat>)
    requires Mirrors(cmp) && Stable(cmp, s, p) && Stable(cmp, s, q)
    ensures p == q
  {
    forall k | 0 <= k < |s|
      ensures p[k] == q[k]
    {
      StableIsUnique(cmp, s, p, q, k);
    }
  }

  // ----- Existence -----

  function Insert<T(!new)>(cmp: (T, T) -> int, s: seq<T>, r: seq<nat>, x: nat): (q: seq<nat>)
    requires x < |s| && forall i :: 0 <= i < |r| ==> r[i] < |s|
    ensures |q| == |r| + 1
    ensures forall k :: k in q <==> k in r || k == x
    ensures forall i :: 0 <= i < |q| ==> q[i] < |s|
  {
    if r == [] then [x]
    else if Before(cmp, s, x, r[0]) then [x] + r
    else
      var rest := Insert(cmp, s, r[1..], x);
      assert forall k :: k in r <==> k == r[0] || k in r[1..];
      [r[0]] + rest
  }

  /** Insertion sort on positions. */
  function Sorted<T(!new)>(cmp: (T, T) -> int, s: seq<T>, n: nat): (p: seq<nat>)
    requires n <= |s|
    ensures |p| == n
    ensures forall k: nat :: k in p <==> k < n
    ensures forall i :: 0 <= i < |p| ==> p[i] < |s|
  {
    if n == 0 then [] else Insert(cmp, s, Sorted(cmp, s, n - 1), n - 1)
  }

  ghost predicate Distinct(p: seq<nat>)
  {
    forall i, j :: 0 <= i < j < |p| ==> p[i] != p[j]
  }

  lemma {:induction false} InsertKeepsDistinct<T(!new)>(cmp: (T, T) -> int, s: seq<T>, r: seq<nat>, x: nat)
    requires x < |s| && (forall i :: 0 <= i < |r| ==> r[i] < |s|) && Distinct(r) && x !in r
    ensures Distinct(Insert(cmp, s, r, x))
  {
    if r != [] && !Before(cmp, s, x, r[0]) {
      InsertKeepsDistinct(cmp, s, r[1..], x);
      assert r[0] !in r[1..];
    }
  }

  lemma {:induction false} SortedDistinct<T(!new)>(cmp: (T, T) -> int, s: seq<T>, n: nat)
    requires n <= |s|
    ensures Distinct(Sorted(cmp, s, n))
  {
    if n > 0 {
      SortedDistinct(cmp, s, n - 1);
      InsertKeepsDistinct(cmp, s, Sorted(cmp, s, n - 1), n - 1);
    }
  }

  lemma SortedPermutes<T(!new)>(cmp: (T, T) -> int, s: seq<T>, n: nat)
    requires n <= |s|
    ensures Permutes(Sorted(cmp, s, n), n)
  {
    SortedDistinct(cmp, s, n);
    var p := Sorted(cmp, s, n);
    hide Sorted;
    forall i | 0 <= i < n
      ensures p[i] < n
    {
      assert p[i] in p;
    }
  }

  ghost predicate InOrder<T(!new)>(cmp: (T, T) -> int, s: seq<T>, r: seq<nat>)
    requires forall i :: 0 <= i < |r| ==> r[i] < |s|
  {
    forall i, j :: 0 <= i < j < |r| ==> Before(cmp, s, r[i], r[j])
  }

  lemma BeforeTransitive<T(!new)>(cmp: (T, T) -> int, s: seq<T>, i: nat, j: nat, k: nat)
    requires Mirrors(cmp) && Orders(cmp, s) && i < |s| && j < |s| && k < |s|
    requires Before(cmp, s, i, j) && Before(cmp, s, j, k)
    ensures Before(cmp, s, i, k)
  {
    var a, b, c := s[i], s[j], s[k];
    assert a in s && b in s && c in s;
    assert cmp(a, b) == -cmp(b, a) && cmp(b, c) == -cmp(c, b) && cmp(a, c) == -cmp(c, a);
    assert cmp(a, c) <= 0;
    if cmp(a, c) == 0 {
      assert cmp(c, a) <= 0 && cmp(c, b) <= 0 && cmp(b, a) <= 0;
    }
  }

  lemma OneIsBefore<T(!new)>(cmp: (T, T) -> int, s: seq<T>, i: nat, j: nat)
    requires Mirrors(cmp) && i < |s| && j < |s| && i != j && !Before(cmp, s, i, j)
    ensures Before(cmp, s, j, i)
  {
    assert cmp(s[i], s[j]) == -cmp(s[j], s[i]);
  }

  lemma {:induction false} InsertKeepsOrder<T(!new)>(cmp: (T, T) -> int, s: seq<T>, r: seq<nat>, x: nat)
    requires Mirrors(cmp) && Orders(cmp, s) && x < |s| && x !in r
    requires (forall i :: 0 <= i < |r| ==> r[i] < |s|) && InOrder(cmp, s, r)
    ensures InOrder(cmp, s, Insert(cmp, s, r, x))
  {
    hide Mirrors, Orders, Before;
    if r == [] {
    } else if Before(cmp, s, x, r[0]) {
      forall j | 0 <= j < |r|
        ensures Before(cmp, s, x, r[j])
      {
        if j > 0 {
          BeforeTransitive(cmp, s, x, r[0], r[j]);
        }
      }
    } else {
      OneIsBefore(cmp, s, x, r[0]);
      InsertKeepsOrder(cmp, s, r[1..], x);
      var rest := Insert(cmp, s, r[1..], x);
      forall j | 0 <= j < |rest|
        ensures Before(cmp, s, r[0], rest[j])
      {
        assert rest[j] in rest;
        if rest[j] != x {
          assert rest[j] in r[1..];
          var k :| 0 <= k < |r[1..]| && r[1..][k] == rest[j];
          assert r[k + 1] == rest[j];
        }
      }
    }
  }

  lemma {:induction false} SortedInOrder<T(!new)>(cmp: (T, T) -> int, s: seq<T>, n: nat)
    requires Mirrors(cmp) && Orders(cmp, s) && n <= |s|
    ensures InOrder(cmp, s, Sorted(cmp, s, n))
  {
    if n > 0 {
      SortedInOrder(cmp, s, n - 1);
      InsertKeepsOrder(cmp, s, Sorted(cmp, s, n - 1), n - 1);
    }
  }

  /** Any comparison rearranges; one that orders the elements gives the stable arrangement. */
  lemma SortedIsStable<T(!new)>(cmp: (T, T) -> int, s: seq<T>)
    requires Mirrors(cmp)
    ensures Permutes(Sorted(cmp, s, |s|), |s|)
    ensures Orders(cmp, s) ==> Stable(cmp, s, Sorted(cmp, s, |s|))
  {
    SortedPermutes(cmp, s, |s|);
    if Orders(cmp, s) {
      SortedInOrder(cmp, s, |s|);
    }
  }
}
