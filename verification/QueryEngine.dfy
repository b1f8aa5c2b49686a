/** Queries without GROUP BY (query.go): filtering compacts the record slice in place, ordering
    rearranges it in place, offset and limit cut it; together they compute a page of the stable ordering
    of the matching records. */
module QueryEngine {
  import opened Common
  import opened Ordering
  import opened QueryValues
  import opened StableOrder

  /** A condition: None when it cannot be evaluated on a row. */
  type Condition<!T> = T -> Option<bool>

  predicate Fails<T>(cond: Condition<T>, s: seq<T>) {
    exists i :: 0 <= i < |s| && cond(s[i]).None?
  }

  function Filter<T>(cond: Condition<T>, s: seq<T>): seq<T> {
    if s == [] then []
    else
      var last := s[|s| - 1];
      Filter(cond, s[..|s| - 1]) + (if cond(last) == Some(true) then [last] else [])
  }

  /** Ascending positions of the rows that match. */
  ghost predicate MatchingPositions<T>(cond: Condition<T>, s: seq<T>, p: seq<nat>)
  {
    && (forall i, j :: 0 <= i < j < |p| ==> p[i] < p[j])
    && (forall k: nat :: k in p <==> k < |s| && cond(s[k]) == Some(true))
  }

  /** Filtering keeps exactly the matching rows, each as often as it occurs, in their order. */
  lemma {:induction false} FilterSelects<T>(cond: Condition<T>, s: seq<T>) returns (p: seq<nat>)
    ensures MatchingPositions(cond, s, p)
    ensures |p| == |Filter(cond, s)| && forall i :: 0 <= i < |p| ==> p[i] < |s| && Filter(cond, s)[i] == s[p[i]]
  {
    if s == [] {
      p := [];
    } else {
      var n := |s| - 1;
      p := FilterSelects(cond, s[..n]);
      forall i | 0 <= i < |p|
        ensures p[i] < n
      {
        assert p[i] in p;
      }
      if cond(s[n]) == Some(true) {
        p := p + [n];
      }
    }
  }

  /** offset and limit; neither counts unless it is positive. */
  function Page<T>(s: seq<T>, offset: int, limit: int): (r: seq<T>)
    ensures forall i :: 0 <= i < |r| ==> (if offset > 0 then offset else 0) + i < |s|
                                         && r[i] == s[(if offset > 0 then offset else 0) + i]
    ensures |r| <= |s| && (limit > 0 ==> |r| <= limit)
    ensures (limit <= 0 || |r| < limit) ==> |r| == (if offset <= 0 then |s| else if offset >= |s| then 0 else |s| - offset)
  {
    var rest := if offset <= 0 then s else if offset >= |s| then [] else s[offset..];
    if limit > 0 && |rest| > limit then rest[..limit] else rest
  }

  /** applyWhereContext: the matching records are moved to the front of the slice they came in. */
  method ApplyWhere<T(0)>(a: array<T>, cond: Condition<T>) returns (r: Option<nat>)
    modifies a
    ensures r.None? <==> Fails(cond, old(a[..]))
    ensures r.Some? ==> r.value <= a.Length && a[..r.value] == Filter(cond, old(a[..]))
  {
    var n := 0;
    for i := 0 to a.Length
      invariant n <= i
      invariant a[..n] == Filter(cond, old(a[..])[..i])
      invariant forall k :: i <= k < a.Length ==> a[k] == old(a[..])[k]
      invariant forall k :: 0 <= k < i ==> cond(old(a[..])[k]).Some?
    {
      ghost var s := old(a[..]);
      assert s[..i + 1][..i] == s[..i] && s[..i + 1][i] == s[i];
      var row := a[i];
      var match_ := cond(row);
      if match_.None? {
        assert cond(s[i]).None?;
        return None;
      }
      if match_.value {
        ghost var before := a[..n];
        a[n] := row;
        n := n + 1;
        assert a[..n] == before + [row];
      }
    }
    assert old(a[..])[..a.Length] == old(a[..]);
    return Some(n);
  }

  function Comparison<T(!new)>(get: Reader<T>, order: seq<OrderBy>): (T, T) -> int {
    (a: T, b: T) => CompareRows(get, order, a, b)
  }

  lemma ComparisonMirrors<T(!new)>(get: Reader<T>, order: seq<OrderBy>)
    ensures Mirrors(Comparison(get, order))
  {
    forall a, b
      ensures Comparison(get, order)(a, b) == -Comparison(get, order)(b, a)
    {
      RowsMirror(get, order, a, b);
    }
  }

  lemma OrderableOrders<T(!new)>(get: Reader<T>, order: seq<OrderBy>, rows: seq<T>)
    requires Orderable(get, order, rows)
    ensures Orders(Comparison(get, order), rows)
  {
    hide CompareRows, Orderable;
    forall a, b, c | a in rows && b in rows && c in rows
      ensures Comparison(get, order)(a, b) <= 0 && Comparison(get, order)(b, c) <= 0 ==> Comparison(get, order)(a, c) <= 0
    {
      if CompareRows(get, order, a, b) <= 0 && CompareRows(get, order, b, c) <= 0 {
        RowsTransitive(get, order, rows, a, b, c);
      }
    }
  }

  /** applyOrderBy: sort.SliceStable on the first n elements, in place. */
  method ApplyOrderBy<T(!new)>(a: array<T>, n: nat, get: Reader<T>, order: seq<OrderBy>) returns (ghost p: seq<nat>)
    requires n <= a.Length
    modifies a
    ensures Permutes(p, n) && a[..n] == Arranged(old(a[..n]), p)
    ensures Orderable(get, order, old(a[..n])) ==> Stable(Comparison(get, order), old(a[..n]), p)
  {
    var rows := a[..n];
    var cmp := Comparison(get, order);
    ComparisonMirrors(get, order);
    SortedIsStable(cmp, rows);
    if Orderable(get, order, rows) {
      OrderableOrders(get, order, rows);
    }
    var positions := Sorted(cmp, rows, n);
    p := positions;
    for i := 0 to n
      invariant forall k :: 0 <= k < i ==> a[k] == rows[positions[k]]
    {
      a[i] := rows[positions[i]];
    }
    assert a[..n] == Arranged(rows, p);
  }

  /** The identity is the stable arrangement when nothing is compared. */
  lemma UnorderedIsStable<T(!new)>(get: Reader<T>, rows: seq<T>) returns (p: seq<nat>)
    ensures Stable(Comparison(get, []), rows, p) && Arranged(rows, p) == rows
  {
    p := seq(|rows|, i requires 0 <= i < |rows| => i);
    forall k: nat | k < |rows|
      ensures k in p
    {
      assert p[k] == k;
    }
  }

  /** A page of an arrangement of the matching rows, the stable one if the columns can be ordered. */
  ghost predicate Answers<T(!new)>(get: Reader<T>, matching: seq<T>, order: seq<OrderBy>, offset: int, limit: int,
                                   p: seq<nat>, result: seq<T>)
  {
    && Permutes(p, |matching|)
    && (Orderable(get, order, matching) ==> Stable(Comparison(get, order), matching, p))
    && result == Page(Arranged(matching, p), offset, limit)
  }

  /** The part of the grouped and ungrouped paths after filtering. */
  method OrderAndCut<T(!new)>(a: array<T>, n: nat, get: Reader<T>, order: seq<OrderBy>, offset: int, limit: int)
    returns (result: seq<T>, ghost p: seq<nat>)
    requires n <= a.Length
    modifies a
    ensures Answers(get, old(a[..n]), order, offset, limit, p, result)
  {
    if |order| > 0 {
      p := ApplyOrderBy(a, n, get, order);
    } else {
      p := UnorderedIsStable(get, a[..n]);
    }
    result := a[..n];
    if offset > 0 {
      if offset >= |result| {
        result := [];
      } else {
        result := result[offset..];
      }
    }
    if limit > 0 && |result| > limit {
      result := result[..limit];
    }
  }

  /** executeQueryToRecordsReader without GROUP BY and before projection. */
  method ExecuteQuery<T(0,!new)>(a: array<T>, where_: Option<Condition<T>>, get: Reader<T>, order: seq<OrderBy>,
                                 offset: int, limit: int)
    returns (result: Option<seq<T>>, ghost p: seq<nat>)
    modifies a
    ensures result.None? <==> where_.Some? && Fails(where_.value, old(a[..]))
    ensures result.Some? ==>
              Answers(get, if where_.Some? then Filter(where_.value, old(a[..])) else old(a[..]), order, offset, limit,
                      p, result.value)
  {
    var n := a.Length;
    if where_.Some? {
      var kept := ApplyWhere(a, where_.value);
      if kept.None? {
        return None, [];
      }
      n := kept.value;
    }
    assert a[..a.Length] == a[..];
    var page;
    page, p := OrderAndCut(a, n, get, order, offset, limit);
    result := Some(page);
  }

  /** Every row of an answer is one of the matching rows, and without offset and limit every matching row is there. */
  lemma AnswerIsOfMatching<T(!new)>(get: Reader<T>, matching: seq<T>, order: seq<OrderBy>, offset: int, limit: int,
                                    p: seq<nat>, result: seq<T>)
    requires Answers(get, matching, order, offset, limit, p, result)
    ensures forall x :: x in result ==> x in matching
    ensures offset <= 0 && limit <= 0 ==> multiset(result) == multiset(matching)
  {
    var all := Arranged(matching, p);
    assert forall x :: x in all ==> x in matching;
    if offset <= 0 && limit <= 0 {
      assert result == all;
      ArrangedKeepsAll(matching, p);
    }
  }

  lemma ArrangedSplits<T>(s: seq<T>, p: seq<nat>, i: nat)
    requires i < |p| && forall k :: 0 <= k < |p| ==> p[k] < |s|
    ensures Arranged(s, p) == Arranged(s, p[..i]) + ([s[p[i]]] + Arranged(s, p[i + 1..]))
    ensures Arranged(s, p[..i] + p[i + 1..]) == Arranged(s, p[..i]) + Arranged(s, p[i + 1..])
  {
  }

  lemma ArrangedInPrefix<T>(s: seq<T>, n: nat, q: seq<nat>)
    requires n <= |s| && forall k :: 0 <= k < |q| ==> q[k] < n
    ensures Arranged(s[..n], q) == Arranged(s, q)
  {
  }

  lemma LastPosition(p: seq<nat>, n: nat) returns (i: nat)
    requires Permutes(p, n + 1)
    ensures i < |p| && p[i] == n && Permutes(p[..i] + p[i + 1..], n)
  {
    assert n in p;
    i :| 0 <= i < |p| && p[i] == n;
    SmallerPermutes(p, i);
  }

  lemma Shuffled<T>(s: seq<T>, n: nat, a: seq<T>, b: seq<T>, all: seq<T>)
    requires |s| == n + 1 && multiset(a + b) == multiset(s[..n]) && all == a + ([s[n]] + b)
    ensures multiset(all) == multiset(s)
  {
    assert s == s[..n] + [s[n]];
  }

  lemma PositionsInRange(p: seq<nat>, n: nat)
    requires Permutes(p, n)
    ensures forall k :: 0 <= k < |p| ==> p[k] < n
  {
  }

  /** An arrangement has every element as often as the original. */
  lemma {:induction false} ArrangedKeepsAll<T(!new)>(s: seq<T>, p: seq<nat>)
    requires Permutes(p, |s|)
    ensures multiset(Arranged(s, p)) == multiset(s)
    decreases |s|
  {
    if s != [] {
      var n := |s| - 1;
      PositionsInRange(p, |s|);
      var i := LastPosition(p, n);
      hide Arranged, Permutes;
      var q := p[..i] + p[i + 1..];
      PositionsInRange(q, n);
      ArrangedSplits(s, p, i);
      ArrangedInPrefix(s, n, q);
      ArrangedKeepsAll(s[..n], q);
      Shuffled(s, n, Arranged(s, p[..i]), Arranged(s, p[i + 1..]), Arranged(s, p));
    }
  }

  lemma SmallerPermutes(p: seq<nat>, i: nat)
    requires i < |p| && Permutes(p, |p|) && p[i] == |p| - 1
    ensures Permutes(p[..i] + p[i + 1..], |p| - 1)
  {
    var q := p[..i] + p[i + 1..];
    forall k: nat | k < |p| - 1
      ensures k in q
    {
      assert k in p;
      var j :| 0 <= j < |p| && p[j] == k;
      assert j < i ==> q[j] == k;
      assert j > i ==> q[j - 1] == k;
    }
  }

  /** Of two rows of an answer on orderable columns, the later one does not come before the earlier one by the first
      expression; rows that no expression tells apart are in their original order. */
  lemma AnswerAscends<T(!new)>(get: Reader<T>, matching: seq<T>, order: seq<OrderBy>, offset: int, limit: int,
                               p: seq<nat>, result: seq<T>, i: nat, j: nat)
    requires Answers(get, matching, order, offset, limit, p, result) && Orderable(get, order, matching)
    requires i < j < |result|
    ensures order != [] && order[0].field.Some? ==>
              var a, b := get(result[i], order[0].field.value), get(result[j], order[0].field.value);
              if order[0].descending then !ValueBefore(a, b) else !ValueBefore(b, a)
    ensures (forall k :: 0 <= k < |order| && order[k].field.Some? ==>
               get(result[i], order[k].field.value) == get(result[j], order[k].field.value)) ==>
              exists k, l :: 0 <= k < l < |matching| && result[i] == matching[k] && result[j] == matching[l]
  {
    var skip := if offset > 0 then offset else 0;
    var k, l := p[skip + i], p[skip + j];
    assert result[i] == matching[k] && result[j] == matching[l];
    assert Before(Comparison(get, order), matching, k, l);
    assert CompareRows(get, order, result[i], result[j]) <= 0;
    if order != [] && order[0].field.Some? {
      FirstDifferenceDecides(get, order, result[i], result[j], 0);
      CompareValuesIs(get(result[i], order[0].field.value), get(result[j], order[0].field.value));
    }
    if forall e :: 0 <= e < |order| && order[e].field.Some? ==>
         get(result[i], order[e].field.value) == get(result[j], order[e].field.value) {
      NothingTellsApart(get, order, result[i], result[j]);
    }
  }

  lemma {:induction false} NothingTellsApart<T(!new)>(get: Reader<T>, order: seq<OrderBy>, a: T, b: T)
    requires forall k :: 0 <= k < |order| && order[k].field.Some? ==> get(a, order[k].field.value) == get(b, order[k].field.value)
    ensures CompareRows(get, order, a, b) == 0
    decreases |order|
  {
    if order != [] {
      if order[0].field.Some? {
        CompareMirrors(get(a, order[0].field.value), get(b, order[0].field.value));
      }
      NothingTellsApart(get, order[1..], a, b);
    }
  }

  /** Ordering records by $id orders them by their ids, and by any other field by what is stored there, nothing counting
      as null. */
  lemma RecordsAscend(matching: seq<Row>, order: seq<OrderBy>, offset: int, limit: int, p: seq<nat>, result: seq<Row>, i: nat, j: nat)
    requires Answers(FieldOf, matching, order, offset, limit, p, result) && Orderable(FieldOf, order, matching)
    requires i < j < |result| && order != [] && !order[0].descending
    ensures order[0].field == Some("$id") ==> !TextBefore(result[j].id, result[i].id)
    ensures order[0].field.Some? && order[0].field != Some("$id") ==>
              var f := order[0].field.value;
              && (f in result[i].data && f in result[j].data ==> !ValueBefore(result[j].data[f], result[i].data[f]))
              && (f in result[i].data && f !in result[j].data ==> !ValueBefore(Nil, result[i].data[f]))
              && (f !in result[i].data && f in result[j].data ==> !ValueBefore(result[j].data[f], Nil))
  {
    AnswerAscends(FieldOf, matching, order, offset, limit, p, result, i, j);
    hide Answers, Orderable;
  }

  /** The answer to a query whose ordering columns can be ordered is unique. */
  lemma OneAnswer<T(!new)>(get: Reader<T>, matching: seq<T>, order: seq<OrderBy>, offset: int, limit: int,
                           p: seq<nat>, a: seq<T>, q: seq<nat>, b: seq<T>)
    requires Orderable(get, order, matching)
    requires Answers(get, matching, order, offset, limit, p, a) && Answers(get, matching, order, offset, limit, q, b)
    ensures a == b
  {
    ComparisonMirrors(get, order);
    OneStableArrangement(Comparison(get, order), matching, p, q);
  }
}
