/** Byte-wise string order and stable sorting by a string key (strings.Compare, sort.Strings,
    sort.Slice on unique keys). */
module Ordering {

  /** strings.Compare. */
  function Compare(a: string, b: string): (c: int)
    ensures -1 <= c <= 1
  {
    if a == [] then (if b == [] then 0 else -1)
    else if b == [] then 1
    else if a[0] < b[0] then -1
    else if b[0] < a[0] then 1
    else Compare(a[1..], b[1..])
  }

  /** Texts agree up to k, and there a ends while b goes on, or a has the smaller character. */
  predicate BeforeAt(a: string, b: string, k: nat) {
    && k <= |a| && k <= |b| && a[..k] == b[..k]
    && (if k == |a| then k < |b| else k < |b| && a[k] < b[k])
  }

  /** a is a proper prefix of b, or has the smaller character where they first differ. */
  ghost predicate TextBefore(a: string, b: string)
  {
    exists k: nat :: BeforeAt(a, b, k)
  }

  lemma BeforeInTails(a: string, b: string, k: nat)
    requires a != [] && b != [] && a[0] == b[0]
    ensures BeforeAt(a[1..], b[1..], k) <==> BeforeAt(a, b, k + 1)
  {
    if k <= |a[1..]| && k <= |b[1..]| {
      assert a[..k + 1] == [a[0]] + a[1..][..k] && b[..k + 1] == [b[0]] + b[1..][..k];
      if a[..k + 1] == b[..k + 1] {
        assert a[1..][..k] == a[..k + 1][1..] && b[1..][..k] == b[..k + 1][1..];
      }
    }
  }

  /** Compare is the order of dictionaries. */
  lemma {:induction false} CompareIsTextOrder(a: string, b: string)
    ensures Compare(a, b) < 0 <==> TextBefore(a, b)
    ensures Compare(a, b) == 0 <==> a == b
    ensures Compare(a, b) > 0 <==> TextBefore(b, a)
  {
    CompareEqual(a, b);
    CompareAntisymmetric(a, b);
    LessIsBefore(a, b);
    LessIsBefore(b, a);
  }

  lemma {:induction false} LessIsBefore(a: string, b: string)
    ensures Compare(a, b) < 0 <==> TextBefore(a, b)
  {
    if a == [] || b == [] || a[0] != b[0] {
      DecidedAtOnce(a, b);
    } else {
      LessIsBefore(a[1..], b[1..]);
      if TextBefore(a[1..], b[1..]) {
        var k: nat :| BeforeAt(a[1..], b[1..], k);
        BeforeInTails(a, b, k);
      }
      if TextBefore(a, b) {
        var k: nat :| BeforeAt(a, b, k);
        assert k > 0;
        BeforeInTails(a, b, k - 1);
      }
    }
  }

  lemma SameStart(a: string, b: string, k: nat)
    requires k <= |a| && k <= |b| && a[..k] == b[..k]
    ensures k > 0 ==> a[0] == b[0]
  {
    if k > 0 {
      assert a[0] == a[..k][0] && b[0] == b[..k][0];
    }
  }

  lemma DecidedAtOnce(a: string, b: string)
    requires a == [] || b == [] || a[0] != b[0]
    ensures TextBefore(a, b) <==> if a == [] then b != [] else b != [] && a[0] < b[0]
  {
    if TextBefore(a, b) {
      var k: nat :| BeforeAt(a, b, k);
      SameStart(a, b, k);
    }
    if (if a == [] then b != [] else b != [] && a[0] < b[0]) {
      assert a[..0] == b[..0];
      assert BeforeAt(a, b, 0);
    }
  }

  lemma {:induction false} CompareEqual(a: string, b: string)
    ensures Compare(a, b) == 0 <==> a == b
  {
    if a != [] && b != [] && a[0] == b[0] {
      CompareEqual(a[1..], b[1..]);
      assert a == [a[0]] + a[1..] && b == [b[0]] + b[1..];
    }
  }

  lemma {:induction false} CompareAntisymmetric(a: string, b: string)
    ensures Compare(a, b) == -Compare(b, a)
  {
    if a != [] && b != [] && a[0] == b[0] {
      CompareAntisymmetric(a[1..], b[1..]);
    }
  }

  lemma {:induction false} CompareTransitive(a: string, b: string, c: string)
    requires Compare(a, b) <= 0 && Compare(b, c) <= 0
    ensures Compare(a, c) <= 0
    ensures Compare(a, b) < 0 || Compare(b, c) < 0 ==> Compare(a, c) < 0
  {
    if a != [] && b != [] && c != [] && a[0] == b[0] == c[0] {
      CompareTransitive(a[1..], b[1..], c[1..]);
    }
  }

  predicate SortedBy<T(!new)>(s: seq<T>, key: T -> string) {
    forall i, j :: 0 <= i < j < |s| ==> Compare(key(s[i]), key(s[j])) <= 0
  }

  function InsertBy<T(!new)>(x: T, s: seq<T>, key: T -> string): (r: seq<T>)
    ensures multiset(r) == multiset([x]) + multiset(s)
  {
    if s == [] then [x]
    else if Compare(key(x), key(s[0])) < 0 then [x] + s
    else
      var r := [s[0]] + InsertBy(x, s[1..], key);
      assert s == [s[0]] + s[1..];
      r
  }

  function SortBy<T(!new)>(s: seq<T>, key: T -> string): (r: seq<T>)
    ensures multiset(r) == multiset(s)
  {
    if s == [] then []
    else
      assert s == s[..|s| - 1] + [s[|s| - 1]];
      InsertBy(s[|s| - 1], SortBy(s[..|s| - 1], key), key)
  }

  lemma {:induction false} InsertKeepsSorted<T(!new)>(x: T, s: seq<T>, key: T -> string)
    requires SortedBy(s, key)
    ensures SortedBy(InsertBy(x, s, key), key)
  {
    if s == [] {
    } else if Compare(key(x), key(s[0])) < 0 {
      forall j | 0 <= j < |s|
        ensures Compare(key(x), key(s[j])) <= 0
      {
        if j > 0 { CompareTransitive(key(x), key(s[0]), key(s[j])); }
      }
    } else {
      InsertKeepsSorted(x, s[1..], key);
      CompareAntisymmetric(key(x), key(s[0]));
      var rest := InsertBy(x, s[1..], key);
      forall j | 0 <= j < |rest|
        ensures Compare(key(s[0]), key(rest[j])) <= 0
      {
        assert rest[j] in multiset(rest);
        if rest[j] != x {
          assert rest[j] in multiset(s[1..]);
          assert rest[j] in s[1..];
        }
      }
    }
  }

  lemma {:induction false} SortBySorts<T(!new)>(s: seq<T>, key: T -> string)
    ensures SortedBy(SortBy(s, key), key)
  {
    if s != [] {
      SortBySorts(s[..|s| - 1], key);
      InsertKeepsSorted(s[|s| - 1], SortBy(s[..|s| - 1], key), key);
    }
  }

  /** Sorting keeps every element, and no key comes after one that follows it. */
  lemma SortByAscends<T(!new)>(s: seq<T>, key: T -> string)
    ensures multiset(SortBy(s, key)) == multiset(s)
    ensures forall i, j :: 0 <= i < j < |s| ==> |SortBy(s, key)| == |s| && !TextBefore(key(SortBy(s, key)[j]), key(SortBy(s, key)[i]))
  {
    var r := SortBy(s, key);
    SortBySorts(s, key);
    assert |multiset(r)| == |r| && |multiset(s)| == |s|;
    forall i, j | 0 <= i < j < |s|
      ensures !TextBefore(key(r[j]), key(r[i]))
    {
      CompareIsTextOrder(key(r[i]), key(r[j]));
    }
  }

  predicate DistinctKeys<T(!new)>(s: seq<T>, key: T -> string) {
    forall i, j :: 0 <= i < j < |s| ==> key(s[i]) != key(s[j])
  }

  lemma HeadIsLeast<T(!new)>(s: seq<T>, key: T -> string, x: T)
    requires SortedBy(s, key) && x in s
    ensures Compare(key(s[0]), key(x)) <= 0
  {
    CompareEqual(key(x), key(x));
  }

  lemma TailMultiset<T>(s: seq<T>)
    requires s != []
    ensures multiset(s[1..]) == multiset(s) - multiset{s[0]}
  {
    assert s == [s[0]] + s[1..];
  }

  lemma Rejoin<T>(a: seq<T>, b: seq<T>)
    requires a != [] && b != [] && a[0] == b[0] && a[1..] == b[1..]
    ensures a == b
  {
    assert a == [a[0]] + a[1..] && b == [b[0]] + b[1..];
  }

  lemma TailSorted<T(!new)>(s: seq<T>, key: T -> string)
    requires SortedBy(s, key) && s != []
    ensures SortedBy(s[1..], key)
    ensures DistinctKeys(s, key) ==> DistinctKeys(s[1..], key)
  {
  }

  lemma HeadsAgree<T(!new)>(a: seq<T>, b: seq<T>, key: T -> string)
    requires SortedBy(a, key) && SortedBy(b, key) && multiset(a) == multiset(b)
    requires DistinctKeys(a, key) && a != []
    ensures b != [] && a[0] == b[0]
  {
    assert a[0] in multiset(b);
    assert b[0] in multiset(a);
    HeadIsLeast(a, key, b[0]);
    HeadIsLeast(b, key, a[0]);
    CompareAntisymmetric(key(a[0]), key(b[0]));
    CompareEqual(key(a[0]), key(b[0]));
    var i :| 0 <= i < |a| && a[i] == b[0];
  }

  /** With distinct keys there is only one sorted arrangement. */
  lemma {:induction false} SortedUnique<T(!new)>(a: seq<T>, b: seq<T>, key: T -> string)
    requires SortedBy(a, key) && SortedBy(b, key) && multiset(a) == multiset(b)
    requires DistinctKeys(a, key)
    ensures a == b
    decreases |a|
  {
    if a == [] {
      assert |multiset(b)| == 0;
    } else {
      HeadsAgree(a, b, key);
      TailMultiset(a);
      TailMultiset(b);
      TailSorted(a, key);
      TailSorted(b, key);
      SortedUnique(a[1..], b[1..], key);
      Rejoin(a, b);
    }
  }

  lemma CountOfTwo<T>(b: seq<T>, i: nat, j: nat)
    requires i < j < |b|
    ensures b[i] == b[j] ==> multiset(b)[b[i]] >= 2
  {
    assert b == b[..j] + b[j..];
    assert b[i] in b[..j] && b[j] in b[j..];
  }

  lemma {:induction false} OnceInDistinct<T(!new)>(a: seq<T>, key: T -> string, x: T)
    requires DistinctKeys(a, key)
    ensures multiset(a)[x] <= 1
  {
    if a != [] {
      OnceInDistinct(a[1..], key, x);
      assert a == [a[0]] + a[1..];
      if a[0] == x {
        assert x !in a[1..];
      }
    }
  }

  /** Keys that are distinct stay distinct in every rearrangement. */
  lemma PermutationKeepsDistinct<T(!new)>(a: seq<T>, b: seq<T>, key: T -> string)
    requires DistinctKeys(a, key) && multiset(a) == multiset(b)
    ensures DistinctKeys(b, key)
  {
    forall i, j | 0 <= i < j < |b|
      ensures key(b[i]) != key(b[j])
    {
      assert b[i] in multiset(b) && b[j] in multiset(b);
      assert b[i] in a && b[j] in a;
      OnceInDistinct(a, key, b[i]);
      CountOfTwo(b, i, j);
    }
  }
}
