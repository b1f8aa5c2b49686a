/** GROUP BY (query.go): records are partitioned by a rendered key into groups in first-seen order, and
    each group becomes one output row. */
module Grouping {
  import opened Common
  import opened QueryValues
  import opened StableOrder
  import opened QueryEngine

  datatype Expr = Field(name: string) | Constant(value: Value) | Unsupported

  /** resolveSimpleExpr. */
  function Resolve(e: Expr, r: Row): Option<Value> {
    match e
    case Field(name) => Some(FieldOf(r, name))
    case Constant(v) => Some(v)
    case Unsupported => None
  }

  // ----- Group keys -----

  const SEPARATOR := '\0'

  /** %T:%v of a value. */
  function Part(v: Value): string { v.typ + (":" + v.shown) }

  function Joined(parts: seq<string>): string
    requires parts != []
  {
    if |parts| == 1 then parts[0] else parts[0] + ([SEPARATOR] + Joined(parts[1..]))
  }

  function Parts(keys: seq<Expr>, r: Row): Option<seq<string>> {
    if keys == [] then Some([])
    else
      var first, rest := Resolve(keys[0], r), Parts(keys[1..], r);
      if first.None? || rest.None? then None else Some([Part(first.value)] + rest.value)
  }

  /** groupKeyStr; a grouped query has at least one expression. */
  function GroupKey(keys: seq<Expr>, r: Row): Option<string>
    requires keys != []
  {
    var parts := Parts(keys, r);
    if parts.None? || parts.value == [] then None else Some(Joined(parts.value))
  }

  /** A value whose rendering has no NUL byte; the type name of a scalar has no colon either. */
  predicate Clean(v: Value) {
    SEPARATOR !in v.typ && SEPARATOR !in v.shown && ':' !in v.typ
  }

  predicate Agree(v: Value, w: Value) { v.typ == w.typ && v.shown == w.shown }

  /** The scalar of a Go type that prints as a given text. The law of the scalars that records hold is that
      there is such a function: type and text determine the value. */
  type Scalars = (string, string) -> Value

  predicate IsScalar(scalars: Scalars, v: Value) { v == scalars(v.typ, v.shown) }

  /** What comes before the first mark is determined by the text. */
  lemma {:induction false} CutAtMark(a: string, x: string, b: string, y: string, mark: char)
    requires mark !in a && mark !in b && a + ([mark] + x) == b + ([mark] + y)
    ensures a == b && x == y
    decreases |a|
  {
    var s, t := a + ([mark] + x), b + ([mark] + y);
    if a == "" || b == "" {
      assert s[0] == t[0];
      assert a == "" && b == "";
      assert x == s[1..] && y == t[1..];
    } else {
      assert a[0] == s[0] && b[0] == t[0];
      assert s[1..] == a[1..] + ([mark] + x) && t[1..] == b[1..] + ([mark] + y);
      CutAtMark(a[1..], x, b[1..], y, mark);
      assert a == [a[0]] + a[1..] && b == [b[0]] + b[1..];
    }
  }

  lemma SamePart(v: Value, w: Value)
    requires Clean(v) && Clean(w) && Part(v) == Part(w)
    ensures Agree(v, w)
  {
    CutAtMark(v.typ, v.shown, w.typ, w.shown, ':');
  }

  lemma {:induction false} SameParts(a: seq<string>, b: seq<string>)
    requires |a| == |b| > 0 && Joined(a) == Joined(b)
    requires (forall i :: 0 <= i < |a| ==> SEPARATOR !in a[i]) && (forall i :: 0 <= i < |b| ==> SEPARATOR !in b[i])
    ensures a == b
    decreases |a|
  {
    if |a| == 1 {
      assert a == [a[0]] && b == [b[0]];
    } else {
      CutAtMark(a[0], Joined(a[1..]), b[0], Joined(b[1..]), SEPARATOR);
      SameParts(a[1..], b[1..]);
      assert a == [a[0]] + a[1..] && b == [b[0]] + b[1..];
    }
  }

  lemma {:induction false} PartsAt(keys: seq<Expr>, r: Row)
    ensures Parts(keys, r).Some? <==> forall i :: 0 <= i < |keys| ==> Resolve(keys[i], r).Some?
    ensures Parts(keys, r).Some? ==> |Parts(keys, r).value| == |keys|
    ensures Parts(keys, r).Some? ==> forall i :: 0 <= i < |keys| ==> Parts(keys, r).value[i] == Part(Resolve(keys[i], r).value)
  {
    if keys != [] {
      PartsAt(keys[1..], r);
      if Parts(keys[1..], r).None? {
        var i :| 0 <= i < |keys[1..]| && Resolve(keys[1..][i], r).None?;
        assert Resolve(keys[i + 1], r).None?;
      }
    }
  }

  ghost predicate CleanRow(keys: seq<Expr>, r: Row)
  {
    forall i :: 0 <= i < |keys| && Resolve(keys[i], r).Some? ==> Clean(Resolve(keys[i], r).value)
  }

  ghost predicate ScalarRow(scalars: Scalars, keys: seq<Expr>, r: Row)
  {
    forall i :: 0 <= i < |keys| && Resolve(keys[i], r).Some? ==> IsScalar(scalars, Resolve(keys[i], r).value)
  }

  /** Two records have the same key exactly when all their grouping values agree; for scalars, are equal. */
  lemma SameKeyIff(scalars: Scalars, keys: seq<Expr>, a: Row, b: Row)
    requires keys != [] && CleanRow(keys, a) && CleanRow(keys, b)
    requires GroupKey(keys, a).Some? && GroupKey(keys, b).Some?
    ensures (GroupKey(keys, a) == GroupKey(keys, b)) <==>
            (forall i :: 0 <= i < |keys| ==>
               Resolve(keys[i], a).Some? && Resolve(keys[i], b).Some? && Agree(Resolve(keys[i], a).value, Resolve(keys[i], b).value))
    ensures ScalarRow(scalars, keys, a) && ScalarRow(scalars, keys, b) ==>
              (GroupKey(keys, a) == GroupKey(keys, b) <==> forall i :: 0 <= i < |keys| ==> Resolve(keys[i], a) == Resolve(keys[i], b))
  {
    PartsAt(keys, a);
    PartsAt(keys, b);
    var p, q := Parts(keys, a).value, Parts(keys, b).value;
    if GroupKey(keys, a) == GroupKey(keys, b) {
      SameParts(p, q);
      forall i | 0 <= i < |keys|
        ensures Agree(Resolve(keys[i], a).value, Resolve(keys[i], b).value)
      {
        assert p[i] == q[i];
        SamePart(Resolve(keys[i], a).value, Resolve(keys[i], b).value);
      }
    }
    if forall i :: 0 <= i < |keys| ==> Agree(Resolve(keys[i], a).value, Resolve(keys[i], b).value) {
      assert forall i :: 0 <= i < |keys| ==> p[i] == q[i];
      assert p == q;
    }
  }

  // ----- Partition -----

  /** The positions below n of the records with key k: all of them, ascending, at least one. */
  ghost predicate GroupOf(keys: seq<Expr>, rows: seq<Row>, n: nat, k: string, group: seq<nat>)
    requires keys != [] && n <= |rows|
  {
    && group != []
    && (forall i, j :: 0 <= i < j < |group| ==> group[i] < group[j])
    && (forall i: nat :: i in group <==> i < n && GroupKey(keys, rows[i]) == Some(k))
  }

  function Total(order: seq<string>, byKey: map<string, seq<nat>>): nat
    requires forall k :: k in order ==> k in byKey
  {
    if order == [] then 0
    else Total(order[..|order| - 1], byKey) + |byKey[order[|order| - 1]]|
  }

  lemma {:induction false} TotalUntouched(order: seq<string>, byKey: map<string, seq<nat>>, k: string, group: seq<nat>)
    requires (forall x :: x in order ==> x in byKey) && k !in order
    ensures Total(order, byKey[k := group]) == Total(order, byKey)
    decreases |order|
  {
    if order != [] {
      TotalUntouched(order[..|order| - 1], byKey, k, group);
      assert order[|order| - 1] in order;
    }
  }

  lemma {:induction false} TotalGrows(order: seq<string>, byKey: map<string, seq<nat>>, k: string, i: nat)
    requires (forall x :: x in order ==> x in byKey) && k in order
    requires forall a, b :: 0 <= a < b < |order| ==> order[a] != order[b]
    ensures Total(order, byKey[k := byKey[k] + [i]]) == Total(order, byKey) + 1
    decreases |order|
  {
    var n := |order| - 1;
    if order[n] == k {
      assert k !in order[..n];
      TotalUntouched(order[..n], byKey, k, byKey[k] + [i]);
    } else {
      TotalGrows(order[..n], byKey, k, i);
      assert order[n] in order;
    }
  }

  /** Groups by key, keys in the order in which they were first seen. */
  ghost predicate PartitionOk(keys: seq<Expr>, rows: seq<Row>, n: nat, order: seq<string>, byKey: map<string, seq<nat>>)
    requires keys != [] && n <= |rows|
  {
    && (forall k :: k in order <==> k in byKey)
    && (forall a, b :: 0 <= a < b < |order| ==> order[a] != order[b])
    && (forall k :: k in byKey ==> GroupOf(keys, rows, n, k, byKey[k]))
    && (forall i :: 0 <= i < n ==> GroupKey(keys, rows[i]).Some? && GroupKey(keys, rows[i]).value in byKey)
    && (forall a, b :: 0 <= a < b < |order| ==> byKey[order[a]][0] < byKey[order[b]][0])
    && Total(order, byKey) == n
  }

  lemma GroupGrows(keys: seq<Expr>, rows: seq<Row>, n: nat, k: string, group: seq<nat>)
    requires keys != [] && n < |rows| && GroupOf(keys, rows, n, k, group)
    ensures GroupOf(keys, rows, n + 1, k, if GroupKey(keys, rows[n]) == Some(k) then group + [n] else group)
  {
    if GroupKey(keys, rows[n]) == Some(k) {
      forall i | 0 <= i < |group|
        ensures group[i] < n
      {
        assert group[i] in group;
      }
      assert forall i: nat :: i in group + [n] <==> i in group || i == n;
    }
  }

  lemma GroupStarts(keys: seq<Expr>, rows: seq<Row>, n: nat, k: string)
    requires keys != [] && n < |rows| && GroupKey(keys, rows[n]) == Some(k)
    requires forall i :: 0 <= i < n ==> GroupKey(keys, rows[i]) != Some(k)
    ensures GroupOf(keys, rows, n + 1, k, [n])
  {
  }

  lemma FirstIsBelow(keys: seq<Expr>, rows: seq<Row>, n: nat, k: string, group: seq<nat>)
    requires keys != [] && n <= |rows| && GroupOf(keys, rows, n, k, group)
    ensures group[0] < n
  {
    assert group[0] in group;
  }

  lemma JoinsGroup(keys: seq<Expr>, rows: seq<Row>, n: nat, order: seq<string>, byKey: map<string, seq<nat>>, k: string)
    requires keys != [] && n < |rows| && PartitionOk(keys, rows, n, order, byKey)
    requires GroupKey(keys, rows[n]) == Some(k) && k in byKey
    ensures PartitionOk(keys, rows, n + 1, order, byKey[k := byKey[k] + [n]])
  {
    hide GroupKey, GroupOf, Total;
    var next := byKey[k := byKey[k] + [n]];
    forall x | x in byKey
      ensures GroupOf(keys, rows, n + 1, x, next[x]) && byKey[x] != [] && next[x][0] == byKey[x][0]
    {
      GroupGrows(keys, rows, n, x, byKey[x]);
      NonEmpty(keys, rows, n, x, byKey[x]);
    }
    TotalGrows(order, byKey, k, n);
  }

  lemma NonEmpty(keys: seq<Expr>, rows: seq<Row>, n: nat, k: string, group: seq<nat>)
    requires keys != [] && n <= |rows| && GroupOf(keys, rows, n, k, group)
    ensures group != []
  {
  }

  lemma StartsGroup(keys: seq<Expr>, rows: seq<Row>, n: nat, order: seq<string>, byKey: map<string, seq<nat>>, k: string)
    requires keys != [] && n < |rows| && PartitionOk(keys, rows, n, order, byKey)
    requires GroupKey(keys, rows[n]) == Some(k) && k !in byKey
    ensures PartitionOk(keys, rows, n + 1, order + [k], byKey[k := [n]])
  {
    hide GroupKey, GroupOf, Total;
    var next := byKey[k := [n]];
    forall x | x in byKey
      ensures GroupOf(keys, rows, n + 1, x, next[x]) && byKey[x] != [] && byKey[x][0] < n
    {
      GroupGrows(keys, rows, n, x, byKey[x]);
      NonEmpty(keys, rows, n, x, byKey[x]);
      FirstIsBelow(keys, rows, n, x, byKey[x]);
    }
    GroupStarts(keys, rows, n, k);
    TotalUntouched(order, byKey, k, [n]);
    TotalOfOne(order, next, k);
  }

  lemma TotalOfOne(order: seq<string>, byKey: map<string, seq<nat>>, k: string)
    requires (forall x :: x in order ==> x in byKey) && k in byKey
    ensures Total(order + [k], byKey) == Total(order, byKey) + |byKey[k]|
  {
    assert (order + [k])[..|order|] == order;
  }

  function Count(groups: seq<seq<nat>>): nat {
    if groups == [] then 0 else Count(groups[..|groups| - 1]) + |groups[|groups| - 1]|
  }

  ghost predicate InSomeGroup(groups: seq<seq<nat>>, i: nat)
  {
    exists g :: 0 <= g < |groups| && i in groups[g]
  }

  /** A partition of the records: non-empty groups in first-seen order that cover every record once, two
      records together exactly when their keys are equal. */
  ghost predicate GroupsOk(keys: seq<Expr>, rows: seq<Row>, groups: seq<seq<nat>>)
    requires keys != []
  {
    && (forall g :: 0 <= g < |groups| ==> groups[g] != [] && forall k :: 0 <= k < |groups[g]| ==> groups[g][k] < |rows|)
    && (forall g, k, l :: 0 <= g < |groups| && 0 <= k < l < |groups[g]| ==> groups[g][k] < groups[g][l])
    && (forall i :: 0 <= i < |rows| ==> InSomeGroup(groups, i))
    && (forall g, k, h, l :: 0 <= g < |groups| && 0 <= k < |groups[g]| && 0 <= h < |groups| && 0 <= l < |groups[h]| ==>
          (g == h <==> GroupKey(keys, rows[groups[g][k]]) == GroupKey(keys, rows[groups[h][l]])))
    && (forall g, h :: 0 <= g < h < |groups| ==> groups[g][0] < groups[h][0])
    && Count(groups) == |rows|
  }

  function Listed(order: seq<string>, byKey: map<string, seq<nat>>): seq<seq<nat>>
    requires forall k :: k in order ==> k in byKey
  {
    seq(|order|, i requires 0 <= i < |order| => byKey[order[i]])
  }

  lemma {:induction false} CountIsTotal(order: seq<string>, byKey: map<string, seq<nat>>)
    requires forall k :: k in order ==> k in byKey
    ensures Count(Listed(order, byKey)) == Total(order, byKey)
    decreases |order|
  {
    if order != [] {
      var n := |order| - 1;
      CountIsTotal(order[..n], byKey);
      assert Listed(order, byKey)[..n] == Listed(order[..n], byKey);
    }
  }

  lemma MemberFacts(keys: seq<Expr>, rows: seq<Row>, order: seq<string>, byKey: map<string, seq<nat>>, g: nat, i: nat)
    requires keys != [] && PartitionOk(keys, rows, |rows|, order, byKey) && g < |order|
    ensures i in byKey[order[g]] <==> i < |rows| && GroupKey(keys, rows[i]) == Some(order[g])
    ensures byKey[order[g]] != []
  {
    assert order[g] in order;
    assert GroupOf(keys, rows, |rows|, order[g], byKey[order[g]]);
  }

  lemma PartitionGroups(keys: seq<Expr>, rows: seq<Row>, order: seq<string>, byKey: map<string, seq<nat>>)
    requires keys != [] && PartitionOk(keys, rows, |rows|, order, byKey)
    ensures GroupsOk(keys, rows, Listed(order, byKey))
  {
    hide GroupKey, Total, Count;
    var groups := Listed(order, byKey);
    CountIsTotal(order, byKey);
    forall g | 0 <= g < |groups|
      ensures groups[g] != []
      ensures forall k :: 0 <= k < |groups[g]| ==> groups[g][k] < |rows|
      ensures forall k, l :: 0 <= k < l < |groups[g]| ==> groups[g][k] < groups[g][l]
    {
      assert order[g] in order;
      assert GroupOf(keys, rows, |rows|, order[g], byKey[order[g]]);
      forall k | 0 <= k < |groups[g]|
        ensures groups[g][k] < |rows|
      {
        MemberFacts(keys, rows, order, byKey, g, groups[g][k]);
      }
    }
    forall i | 0 <= i < |rows|
      ensures InSomeGroup(groups, i)
    {
      var k := GroupKey(keys, rows[i]).value;
      assert k in order;
      var g :| 0 <= g < |order| && order[g] == k;
      MemberFacts(keys, rows, order, byKey, g, i);
      assert i in groups[g];
    }
    forall g, k | 0 <= g < |groups| && 0 <= k < |groups[g]|
      ensures groups[g][k] < |rows| && GroupKey(keys, rows[groups[g][k]]) == Some(order[g])
    {
      MemberFacts(keys, rows, order, byKey, g, groups[g][k]);
    }
    forall g, k, h, l | 0 <= g < |groups| && 0 <= k < |groups[g]| && 0 <= h < |groups| && 0 <= l < |groups[h]|
      ensures g == h <==> GroupKey(keys, rows[groups[g][k]]) == GroupKey(keys, rows[groups[h][l]])
    {
      assert GroupKey(keys, rows[groups[g][k]]) == Some(order[g]);
      assert GroupKey(keys, rows[groups[h][l]]) == Some(order[h]);
      assert g < h ==> order[g] != order[h];
      assert h < g ==> order[h] != order[g];
    }
    forall g, h | 0 <= g < h < |groups|
      ensures groups[g][0] < groups[h][0]
    {
      assert byKey[order[g]][0] < byKey[order[h]][0];
    }
  }

  lemma EmptyTotal()
    ensures Total([], map[]) == 0
  {
  }

  /** The first loop of applyGroupByContext. */
  method Partition(keys: seq<Expr>, rows: seq<Row>) returns (r: Option<seq<seq<nat>>>)
    requires keys != []
    ensures r.None? <==> exists i :: 0 <= i < |rows| && GroupKey(keys, rows[i]).None?
    ensures r.Some? ==> GroupsOk(keys, rows, r.value)
  {
    hide GroupKey, GroupOf, GroupsOk, Total;
    assert Total([], map[]) == 0 by { EmptyTotal(); }
    var order: seq<string> := [];
    var byKey: map<string, seq<nat>> := map[];
    for i := 0 to |rows|
      invariant PartitionOk(keys, rows, i, order, byKey)
    {
      var key := GroupKey(keys, rows[i]);
      if key.None? {
        return None;
      }
      if key.value in byKey {
        JoinsGroup(keys, rows, i, order, byKey, key.value);
        byKey := byKey[key.value := byKey[key.value] + [i]];
      } else {
        StartsGroup(keys, rows, i, order, byKey, key.value);
        byKey := byKey[key.value := [i]];
        order := order + [key.value];
      }
    }
    PartitionGroups(keys, rows, order, byKey);
    return Some(Listed(order, byKey));
  }

  // ----- Aggregates -----

  function Stored(r: Row, name: string): Value {
    if name in r.data then r.data[name] else Nil
  }

  function CountOf(rows: seq<Row>, name: string): nat {
    if rows == [] then 0
    else CountOf(rows[..|rows| - 1], name) + if Stored(rows[|rows| - 1], name) != Nil then 1 else 0
  }

  /** MIN and MAX: the first value that no later one beats. */
  function Extreme(rows: seq<Row>, name: string, least: bool): Option<Value> {
    if rows == [] then None
    else
      var best, v := Extreme(rows[..|rows| - 1], name, least), Stored(rows[|rows| - 1], name);
      if v == Nil then best
      else if best.None? then Some(v)
      else
        var c := CompareValues(v, best.value);
        if (least && c < 0) || (!least && c > 0) then Some(v) else best
  }

  /** The sum of the numbers of a column, and how many they are; null and anything else is skipped. */
  function Numbers(rows: seq<Row>, name: string): (real, nat) {
    if rows == [] then (0.0, 0)
    else
      var before, v := Numbers(rows[..|rows| - 1], name), Stored(rows[|rows| - 1], name);
      if v.num.Some? then (before.0 + v.num.value, before.1 + 1) else before
  }

  method AddNumbers(rows: seq<Row>, name: string) returns (sum: real, count: nat)
    ensures (sum, count) == Numbers(rows, name)
  {
    sum, count := 0.0, 0;
    for i := 0 to |rows|
      invariant (sum, count) == Numbers(rows[..i], name)
    {
      assert rows[..i + 1][..i] == rows[..i];
      var v := Stored(rows[i], name);
      if v == Nil {
        continue;
      }
      if v.num.None? {
        continue;
      }
      sum, count := sum + v.num.value, count + 1;
    }
    assert rows[..|rows|] == rows;
  }

  method CountField(rows: seq<Row>, name: string) returns (n: nat)
    ensures n == CountOf(rows, name)
  {
    n := 0;
    for i := 0 to |rows|
      invariant n == CountOf(rows[..i], name)
    {
      assert rows[..i + 1][..i] == rows[..i];
      if Stored(rows[i], name) != Nil {
        n := n + 1;
      }
    }
    assert rows[..|rows|] == rows;
  }

  method FindExtreme(rows: seq<Row>, name: string, least: bool) returns (best: Option<Value>)
    ensures best == Extreme(rows, name, least)
  {
    best := None;
    for i := 0 to |rows|
      invariant best == Extreme(rows[..i], name, least)
    {
      assert rows[..i + 1][..i] == rows[..i];
      var v := Stored(rows[i], name);
      if v == Nil {
        continue;
      }
      if best.None? {
        best := Some(v);
        continue;
      }
      var c := CompareValues(v, best.value);
      if (least && c < 0) || (!least && c > 0) {
        best := Some(v);
      }
    }
    assert rows[..|rows|] == rows;
  }

  ghost function ColumnOf(rows: seq<Row>, name: string): set<Value> {
    set i | 0 <= i < |rows| && Stored(rows[i], name) != Nil :: Stored(rows[i], name)
  }

  /** On a column that can be ordered, MIN and MAX bound every non-null value and are one of them; they
      are null exactly when there is none. */
  lemma {:induction false} ExtremeBounds(rows: seq<Row>, name: string, least: bool, column: set<Value>)
    requires IsOrdered(column) && ColumnOf(rows, name) <= column
    ensures var best := Extreme(rows, name, least);
            && (best.None? <==> ColumnOf(rows, name) == {})
            && (best.Some? ==> best.value in ColumnOf(rows, name))
            && (best.Some? ==> forall v :: v in ColumnOf(rows, name) ==>
                  if least then CompareValues(best.value, v) <= 0 else CompareValues(v, best.value) <= 0)
    decreases |rows|
  {
    if rows != [] {
      var n := |rows| - 1;
      var before, v := ColumnOf(rows[..n], name), Stored(rows[n], name);
      ColumnGrows(rows, name);
      ExtremeBounds(rows[..n], name, least, column);
      var old_, best := Extreme(rows[..n], name, least), Extreme(rows, name, least);
      CompareMirrors(v, v);
      if old_.Some? && v != Nil {
        CompareMirrors(v, old_.value);
        CompareMirrors(old_.value, old_.value);
        forall w | w in before
          ensures if least then CompareValues(best.value, w) <= 0 else CompareValues(w, best.value) <= 0
        {
          if best == Some(v) && CompareValues(v, old_.value) != 0 {
            if least {
              ColumnTransitive(column, v, old_.value, w);
            } else {
              ColumnTransitive(column, w, old_.value, v);
            }
          }
        }
      }
    }
  }

  lemma ColumnGrows(rows: seq<Row>, name: string)
    requires rows != []
    ensures var n := |rows| - 1;
            var v := Stored(rows[n], name);
            ColumnOf(rows, name) == ColumnOf(rows[..n], name) + if v == Nil then {} else {v}
  {
    var n := |rows| - 1;
    assert forall i :: 0 <= i < n ==> rows[..n][i] == rows[i];
    forall v | v in ColumnOf(rows[..n], name)
      ensures v in ColumnOf(rows, name)
    {
      var i :| 0 <= i < n && Stored(rows[..n][i], name) != Nil && v == Stored(rows[..n][i], name);
      assert Stored(rows[i], name) == v;
    }
    forall v | v in ColumnOf(rows, name)
      ensures v in ColumnOf(rows[..n], name) || (v == Stored(rows[n], name) && v != Nil)
    {
      var i :| 0 <= i < |rows| && Stored(rows[i], name) != Nil && v == Stored(rows[i], name);
      if i < n {
        assert Stored(rows[..n][i], name) == v;
      }
    }
  }

  // ----- Output rows -----

  /** Expressions of a grouped query. SUM and AVERAGE add without rounding; show is the %v text of a float. */
  datatype GroupExpr =
    | GroupField(name: string)
    | GroupConstant(value: Value)
    | CountAll
    | CountField(name: string)
    | MinMax(name: string, least: bool)
    | Sum(name: string, average: bool, show: real -> string)
    | UnsupportedGroup

  datatype Column = Column(out: string, expr: GroupExpr)

  function Decimal(n: nat): string {
    if n < 10 then ["0123456789"[n]] else Decimal(n / 10) + ["0123456789"[n % 10]]
  }

  function IntValue(n: nat): Value { Value("int", Decimal(n), Some(n as real)) }

  /** What SUM and AVERAGE make of the sum and the number of the numbers; null when there is none. */
  function SumValue(numbers: (real, nat), average: bool, show: real -> string): Value {
    if numbers.1 == 0 then Nil
    else
      var x := if average then numbers.0 / numbers.1 as real else numbers.0;
      Value("float64", show(x), Some(x))
  }

  /** resolveGroupExpr. */
  function ResolveGroup(e: GroupExpr, rows: seq<Row>): Option<Value> {
    match e
    case GroupField(name) => Some(if rows == [] then Nil else Stored(rows[0], name))
    case GroupConstant(v) => Some(v)
    case CountAll => Some(IntValue(|rows|))
    case CountField(name) => Some(IntValue(CountOf(rows, name)))
    case MinMax(name, least) => var best := Extreme(rows, name, least); Some(if best.None? then Nil else best.value)
    case Sum(name, average, show) => Some(SumValue(Numbers(rows, name), average, show))
    case UnsupportedGroup => None
  }

  function Projected(columns: seq<Column>, rows: seq<Row>): Option<Record> {
    if columns == [] then Some(map[])
    else
      var last := columns[|columns| - 1];
      var before, v := Projected(columns[..|columns| - 1], rows), ResolveGroup(last.expr, rows);
      if before.None? || v.None? then None else Some(before.value[last.out := v.value])
  }

  /** A grouping column other than $id reads back, for the whole group, the value that every record of the
      group was grouped by; $id reads back a stored field of that name instead of the record's id. */
  lemma GroupColumnReadsBack(scalars: Scalars, keys: seq<Expr>, rows: seq<Row>, groups: seq<seq<nat>>, g: nat, i: nat, e: nat)
    requires keys != [] && GroupsOk(keys, rows, groups) && g < |groups| && i in groups[g]
    requires forall k :: 0 <= k < |rows| ==> CleanRow(keys, rows[k]) && GroupKey(keys, rows[k]).Some?
    requires e < |keys| && keys[e].Field?
    ensures i < |rows|
    ensures var read := ResolveGroup(GroupField(keys[e].name), Arranged(rows, groups[g]));
            && (keys[e].name != "$id" ==> Agree(read.value, FieldOf(rows[i], keys[e].name)))
            && (keys[e].name != "$id" && (forall k :: 0 <= k < |rows| ==> ScalarRow(scalars, keys, rows[k])) ==>
                  read == Some(FieldOf(rows[i], keys[e].name)))
            && (keys[e].name == "$id" ==> read == Some(Stored(rows[groups[g][0]], "$id")))
  {
    SameKeyInGroup(keys, rows, groups, g, i);
    GroupsInRange(keys, rows, groups);
    hide GroupsOk, GroupKey;
    var first := groups[g][0];
    assert Arranged(rows, groups[g])[0] == rows[first];
    SameKeyIff(scalars, keys, rows[i], rows[first]);
    assert Resolve(keys[e], rows[first]).Some?;
  }

  lemma SameKeyInGroup(keys: seq<Expr>, rows: seq<Row>, groups: seq<seq<nat>>, g: nat, i: nat)
    requires keys != [] && GroupsOk(keys, rows, groups) && g < |groups| && i in groups[g]
    ensures groups[g] != [] && i < |rows| && groups[g][0] < |rows|
    ensures GroupKey(keys, rows[i]) == GroupKey(keys, rows[groups[g][0]])
  {
    hide GroupKey;
    var first := groups[g][0];
    var k :| 0 <= k < |groups[g]| && groups[g][k] == i;
    assert GroupKey(keys, rows[i]) == GroupKey(keys, rows[first]);
  }

  datatype GroupRow = GroupRow(out: Record, rows: seq<Row>)

  function OutOf(g: GroupRow, name: string): Value {
    if name in g.out then g.out[name] else Nil
  }

  /** The output rows of all groups. */
  ghost predicate RowsOfGroups(columns: seq<Column>, rows: seq<Row>, groups: seq<seq<nat>>, outs: seq<GroupRow>)
  {
    && |outs| == |groups|
    && (forall g :: 0 <= g < |groups| ==> forall k :: 0 <= k < |groups[g]| ==> groups[g][k] < |rows|)
    && (forall g :: 0 <= g < |groups| ==>
          outs[g].rows == Arranged(rows, groups[g]) && Projected(columns, outs[g].rows) == Some(outs[g].out))
  }

  method Project(columns: seq<Column>, rows: seq<Row>) returns (out: Option<Record>)
    ensures out == Projected(columns, rows)
  {
    var m: Record := map[];
    for i := 0 to |columns|
      invariant Projected(columns[..i], rows) == Some(m)
    {
      assert columns[..i + 1][..i] == columns[..i];
      var v;
      match columns[i].expr {
        case CountField(name) =>
          var n := CountField(rows, name);
          v := Some(IntValue(n));
        case MinMax(name, least) =>
          var best := FindExtreme(rows, name, least);
          v := Some(if best.None? then Nil else best.value);
        case Sum(name, average, show) =>
          var sum, n := AddNumbers(rows, name);
          v := Some(SumValue((sum, n), average, show));
        case other => v := ResolveGroup(other, rows);
      }
      if v.None? {
        ProjectionStops(columns, rows, i + 1);
        return None;
      }
      m := m[columns[i].out := v.value];
    }
    assert columns[..|columns|] == columns;
    return Some(m);
  }

  lemma {:induction false} ProjectionStops(columns: seq<Column>, rows: seq<Row>, n: nat)
    requires n <= |columns| && Projected(columns[..n], rows).None?
    ensures Projected(columns, rows).None?
    decreases |columns|
  {
    if n < |columns| {
      assert columns[..|columns| - 1][..n] == columns[..n];
      ProjectionStops(columns[..|columns| - 1], rows, n);
    } else {
      assert columns[..n] == columns;
    }
  }

  /** The answer to a grouped query: a page of the stable ordering of those output rows, one for each group
      of the partition, that pass HAVING. */
  ghost predicate AnswersGrouped(keys: seq<Expr>, rows: seq<Row>, columns: seq<Column>, having: Option<Condition<GroupRow>>,
                                 order: seq<OrderBy>, offset: int, limit: int,
                                 groups: seq<seq<nat>>, outs: seq<GroupRow>, p: seq<nat>, result: seq<GroupRow>)
    requires keys != []
  {
    && GroupsOk(keys, rows, groups) && RowsOfGroups(columns, rows, groups, outs)
    && !(having.Some? && Fails(having.value, outs))
    && Answers(OutOf, if having.Some? then Filter(having.value, outs) else outs, order, offset, limit, p, result)
  }

  /** An output row, or HAVING on the output rows, cannot be evaluated. */
  ghost predicate GroupingFails(keys: seq<Expr>, rows: seq<Row>, columns: seq<Column>, having: Option<Condition<GroupRow>>,
                                groups: seq<seq<nat>>, outs: seq<GroupRow>)
    requires keys != []
  {
    && GroupsOk(keys, rows, groups)
    && ((exists g :: 0 <= g < |groups| && Projected(columns, Arranged(rows, groups[g])).None?)
        || (RowsOfGroups(columns, rows, groups, outs) && having.Some? && Fails(having.value, outs)))
  }

  /** applyGroupByContext: partition, projection, HAVING, ORDER BY, offset and limit. */
  method ApplyGroupBy(keys: seq<Expr>, rows: seq<Row>, columns: seq<Column>, having: Option<Condition<GroupRow>>,
                      order: seq<OrderBy>, offset: int, limit: int)
    returns (result: Option<seq<GroupRow>>)
    requires keys != []
    ensures result.Some? ==>
              exists groups: seq<seq<nat>>, outs: seq<GroupRow>, p: seq<nat> ::
                AnswersGrouped(keys, rows, columns, having, order, offset, limit, groups, outs, p, result.value)
    ensures result.None? <==>
              (exists i :: 0 <= i < |rows| && GroupKey(keys, rows[i]).None?)
              || exists groups: seq<seq<nat>>, outs: seq<GroupRow> :: GroupingFails(keys, rows, columns, having, groups, outs)
  {
    hide GroupsOk, Answers, Projected, RowsOfGroups, Filter, Fails;
    var parts := Partition(keys, rows);
    if parts.None? {
      return None;
    }
    ghost var groups := parts.value;
    GroupsInRange(keys, rows, groups);
    var list := ProjectGroups(columns, rows, parts.value);
    if list.None? {
      assert GroupingFails(keys, rows, columns, having, groups, []);
      return None;
    }
    ghost var outs := list.value;
    var a := new GroupRow[|list.value|](i requires 0 <= i < |list.value| => list.value[i]);
    assert a[..] == outs;
    var n := a.Length;
    if having.Some? {
      var kept := ApplyWhere(a, having.value);
      if kept.None? {
        assert GroupingFails(keys, rows, columns, having, groups, outs);
        return None;
      }
      n := kept.value;
    }
    assert a[..a.Length] == a[..];
    var page, p := OrderAndCut(a, n, OutOf, order, offset, limit);
    assert AnswersGrouped(keys, rows, columns, having, order, offset, limit, groups, outs, p, page);
    forall groups': seq<seq<nat>>, outs': seq<GroupRow>
      ensures !GroupingFails(keys, rows, columns, having, groups', outs')
    {
      GroupingSucceeds(keys, rows, columns, having, groups, outs, groups', outs');
    }
    result := Some(page);
  }

  lemma GroupsInRange(keys: seq<Expr>, rows: seq<Row>, groups: seq<seq<nat>>)
    requires keys != [] && GroupsOk(keys, rows, groups)
    ensures forall g :: 0 <= g < |groups| ==> forall k :: 0 <= k < |groups[g]| ==> groups[g][k] < |rows|
  {
  }

  method ProjectGroups(columns: seq<Column>, rows: seq<Row>, groups: seq<seq<nat>>) returns (list: Option<seq<GroupRow>>)
    requires forall g :: 0 <= g < |groups| ==> forall k :: 0 <= k < |groups[g]| ==> groups[g][k] < |rows|
    ensures list.Some? ==> RowsOfGroups(columns, rows, groups, list.value)
    ensures list.None? ==> exists g :: 0 <= g < |groups| && Projected(columns, Arranged(rows, groups[g])).None?
  {
    hide Projected, Arranged;
    var outs: seq<GroupRow> := [];
    for g := 0 to |groups|
      invariant |outs| == g
      invariant forall h :: 0 <= h < g ==>
                  outs[h].rows == Arranged(rows, groups[h]) && Projected(columns, outs[h].rows) == Some(outs[h].out)
    {
      var members := Arranged(rows, groups[g]);
      var out := Project(columns, members);
      if out.None? {
        return None;
      }
      outs := outs + [GroupRow(out.value, members)];
    }
    return Some(outs);
  }

  /** Two records are in the same group exactly when their grouping values agree. */
  lemma TogetherIff(scalars: Scalars, keys: seq<Expr>, rows: seq<Row>, groups: seq<seq<nat>>, g: nat, k: nat, h: nat, l: nat)
    requires keys != [] && GroupsOk(keys, rows, groups)
    requires g < |groups| && k < |groups[g]| && h < |groups| && l < |groups[h]|
    requires forall i :: 0 <= i < |rows| ==> CleanRow(keys, rows[i]) && GroupKey(keys, rows[i]).Some?
    ensures groups[g][k] < |rows| && groups[h][l] < |rows|
    ensures g == h <==>
            (forall i :: 0 <= i < |keys| ==>
               var v, w := Resolve(keys[i], rows[groups[g][k]]), Resolve(keys[i], rows[groups[h][l]]);
               v.Some? && w.Some? && Agree(v.value, w.value))
    ensures (forall i :: 0 <= i < |rows| ==> ScalarRow(scalars, keys, rows[i])) ==>
              (g == h <==>
                 forall i :: 0 <= i < |keys| ==> Resolve(keys[i], rows[groups[g][k]]) == Resolve(keys[i], rows[groups[h][l]]))
  {
    GroupsInRange(keys, rows, groups);
    assert g == h <==> GroupKey(keys, rows[groups[g][k]]) == GroupKey(keys, rows[groups[h][l]]);
    SameKeyIff(scalars, keys, rows[groups[g][k]], rows[groups[h][l]]);
  }

  /** A column that no later one overwrites is in the output row. */
  lemma {:induction false} ColumnIsOut(columns: seq<Column>, rows: seq<Row>, c: nat)
    requires c < |columns| && Projected(columns, rows).Some?
    requires forall d :: c < d < |columns| ==> columns[d].out != columns[c].out
    ensures var out := Projected(columns, rows).value;
            columns[c].out in out && Some(out[columns[c].out]) == ResolveGroup(columns[c].expr, rows)
    decreases |columns|
  {
    if c < |columns| - 1 {
      ColumnIsOut(columns[..|columns| - 1], rows, c);
    }
  }

  ghost function SumOf(outs: seq<GroupRow>, name: string): real {
    if outs == [] then 0.0
    else
      var v := OutOf(outs[|outs| - 1], name);
      SumOf(outs[..|outs| - 1], name) + if v.num.Some? then v.num.value else 0.0
  }

  lemma {:induction false} CountColumn(columns: seq<Column>, rows: seq<Row>, groups: seq<seq<nat>>, outs: seq<GroupRow>, c: nat)
    requires RowsOfGroups(columns, rows, groups, outs) && c < |columns| && columns[c].expr == CountAll
    requires forall d :: c < d < |columns| ==> columns[d].out != columns[c].out
    ensures SumOf(outs, columns[c].out) == Count(groups) as real
    decreases |outs|
  {
    if outs != [] {
      var n := |outs| - 1;
      CountColumn(columns, rows, groups[..n], outs[..n], c);
      ColumnIsOut(columns, outs[n].rows, c);
    }
  }

  /** Before HAVING, COUNT(*) over all groups adds up to the number of filtered records. */
  lemma CountsAddUp(keys: seq<Expr>, columns: seq<Column>, rows: seq<Row>, groups: seq<seq<nat>>, outs: seq<GroupRow>, c: nat)
    requires keys != [] && GroupsOk(keys, rows, groups) && RowsOfGroups(columns, rows, groups, outs)
    requires c < |columns| && columns[c].expr == CountAll
    requires forall d :: c < d < |columns| ==> columns[d].out != columns[c].out
    ensures SumOf(outs, columns[c].out) == |rows| as real
  {
    CountColumn(columns, rows, groups, outs, c);
  }

  // ----- Groups and answers are determined -----

  lemma FirstIsMember(a: seq<nat>)
    ensures a == [] || a[0] in a
  {
  }

  lemma {:induction false} AscendingIsUnique(a: seq<nat>, b: seq<nat>)
    requires (forall i, j :: 0 <= i < j < |a| ==> a[i] < a[j]) && (forall i, j :: 0 <= i < j < |b| ==> b[i] < b[j])
    requires forall x :: x in a <==> x in b
    ensures a == b
    decreases |a|
  {
    FirstIsMember(a);
    FirstIsMember(b);
    if a != [] {
      assert b != [];
      var m, n := |a| - 1, |b| - 1;
      assert a[m] in b && b[n] in a;
      assert a[m] == b[n];
      forall x
        ensures x in a[..m] <==> x in b[..n]
      {
        assert x in a[..m] <==> x in a && x != a[m];
        assert x in b[..n] <==> x in b && x != b[n];
      }
      AscendingIsUnique(a[..m], b[..n]);
      assert a == a[..m] + [a[m]] && b == b[..n] + [b[n]];
    }
  }

  /** The group that a record is in consists of the records with its key. */
  lemma MembersByKey(keys: seq<Expr>, rows: seq<Row>, groups: seq<seq<nat>>, g: nat, i: nat, x: nat)
    requires keys != [] && GroupsOk(keys, rows, groups) && g < |groups| && i in groups[g]
    ensures i < |rows|
    ensures x in groups[g] <==> x < |rows| && GroupKey(keys, rows[x]) == GroupKey(keys, rows[i])
  {
    hide GroupKey;
    var k :| 0 <= k < |groups[g]| && groups[g][k] == i;
    if x in groups[g] {
      var l :| 0 <= l < |groups[g]| && groups[g][l] == x;
    }
    if x < |rows| && GroupKey(keys, rows[x]) == GroupKey(keys, rows[i]) {
      assert InSomeGroup(groups, x);
      var h :| 0 <= h < |groups| && x in groups[h];
      var l :| 0 <= l < |groups[h]| && groups[h][l] == x;
    }
  }

  lemma GroupsAscend(keys: seq<Expr>, rows: seq<Row>, groups: seq<seq<nat>>, g: nat)
    requires keys != [] && GroupsOk(keys, rows, groups) && g < |groups|
    ensures groups[g] != [] && forall i, j :: 0 <= i < j < |groups[g]| ==> groups[g][i] < groups[g][j]
    ensures forall h :: g < h < |groups| ==> groups[h] != [] && groups[g][0] < groups[h][0]
  {
    hide GroupKey, Count;
  }

  ghost predicate SameAt(a: seq<seq<nat>>, b: seq<seq<nat>>, h: nat)
  {
    h < |a| && h < |b| && a[h] == b[h]
  }

  /** The group of the first record of a's g-th group is at g or later in b, when the groups before agree. */
  lemma FirstIsLater(keys: seq<Expr>, rows: seq<Row>, a: seq<seq<nat>>, b: seq<seq<nat>>, g: nat)
    requires keys != [] && GroupsOk(keys, rows, a) && GroupsOk(keys, rows, b) && g < |a|
    requires forall h :: 0 <= h < g ==> SameAt(a, b, h)
    ensures a[g] != [] && g < |b| && b[g] != [] && b[g][0] <= a[g][0]
  {
    hide GroupKey, Count;
    GroupsAscend(keys, rows, a, g);
    var x := a[g][0];
    assert x in a[g] && x < |rows|;
    assert InSomeGroup(b, x);
    var h :| 0 <= h < |b| && x in b[h];
    var l :| 0 <= l < |b[h]| && b[h][l] == x;
    if h < g {
      assert SameAt(a, b, h);
    }
    if h < |a| {
      GroupsDisjoint(keys, rows, a, g, h, x);
    }
    assert g <= h;
    assert g > 0 ==> SameAt(a, b, g - 1);
    GroupsAscend(keys, rows, b, h);
    GroupsAscend(keys, rows, b, g);
  }

  lemma GroupsDisjoint(keys: seq<Expr>, rows: seq<Row>, groups: seq<seq<nat>>, g: nat, h: nat, x: nat)
    requires keys != [] && GroupsOk(keys, rows, groups) && g < |groups| && h < |groups|
    ensures x in groups[g] && x in groups[h] ==> g == h
  {
    hide GroupKey;
    if x in groups[g] && x in groups[h] {
      var k :| 0 <= k < |groups[g]| && groups[g][k] == x;
      var l :| 0 <= l < |groups[h]| && groups[h][l] == x;
    }
  }

  lemma {:induction false} SameGroup(keys: seq<Expr>, rows: seq<Row>, a: seq<seq<nat>>, b: seq<seq<nat>>, g: nat)
    requires keys != [] && GroupsOk(keys, rows, a) && GroupsOk(keys, rows, b) && g < |a|
    ensures g < |b| && a[g] == b[g]
    decreases g
  {
    hide GroupsOk, GroupKey;
    forall h | 0 <= h < g
      ensures SameAt(a, b, h) && SameAt(b, a, h)
    {
      SameGroup(keys, rows, a, b, h);
    }
    FirstIsLater(keys, rows, a, b, g);
    FirstIsLater(keys, rows, b, a, g);
    var x := a[g][0];
    assert b[g][0] == x;
    FirstIsMember(a[g]);
    FirstIsMember(b[g]);
    forall y: nat
      ensures y in a[g] <==> y in b[g]
    {
      MembersByKey(keys, rows, a, g, x, y);
      MembersByKey(keys, rows, b, g, x, y);
    }
    GroupsAscend(keys, rows, a, g);
    GroupsAscend(keys, rows, b, g);
    AscendingIsUnique(a[g], b[g]);
  }

  /** There is only one partition in first-seen order. */
  lemma OneGrouping(keys: seq<Expr>, rows: seq<Row>, a: seq<seq<nat>>, b: seq<seq<nat>>)
    requires keys != [] && GroupsOk(keys, rows, a) && GroupsOk(keys, rows, b)
    ensures a == b
  {
    hide GroupsOk;
    forall g | 0 <= g < |a|
      ensures g < |b| && a[g] == b[g]
    {
      SameGroup(keys, rows, a, b, g);
    }
    if |a| < |b| {
      SameGroup(keys, rows, b, a, |a|);
    }
    if |b| < |a| {
      SameGroup(keys, rows, a, b, |b|);
    }
  }

  lemma OneProjection(columns: seq<Column>, rows: seq<Row>, groups: seq<seq<nat>>, a: seq<GroupRow>, b: seq<GroupRow>)
    requires RowsOfGroups(columns, rows, groups, a) && RowsOfGroups(columns, rows, groups, b)
    ensures a == b
  {
    hide Projected;
    forall g | 0 <= g < |groups|
      ensures a[g] == b[g]
    {
      assert Some(a[g].out) == Some(b[g].out);
    }
  }

  lemma GroupingSucceeds(keys: seq<Expr>, rows: seq<Row>, columns: seq<Column>, having: Option<Condition<GroupRow>>,
                         groups: seq<seq<nat>>, outs: seq<GroupRow>, groups': seq<seq<nat>>, outs': seq<GroupRow>)
    requires keys != [] && GroupsOk(keys, rows, groups) && RowsOfGroups(columns, rows, groups, outs)
    requires !(having.Some? && Fails(having.value, outs))
    ensures !GroupingFails(keys, rows, columns, having, groups', outs')
  {
    hide GroupsOk, Projected, Fails;
    if GroupsOk(keys, rows, groups') {
      OneGrouping(keys, rows, groups, groups');
      assert forall g :: 0 <= g < |groups| ==> Projected(columns, outs[g].rows).Some?;
      if RowsOfGroups(columns, rows, groups, outs') {
        OneProjection(columns, rows, groups, outs, outs');
      }
    }
  }

  /** The answer to a grouped query whose ordering columns can be ordered is unique. */
  lemma OneGroupedAnswer(keys: seq<Expr>, rows: seq<Row>, columns: seq<Column>, having: Option<Condition<GroupRow>>,
                         order: seq<OrderBy>, offset: int, limit: int,
                         groups: seq<seq<nat>>, outs: seq<GroupRow>, p: seq<nat>, a: seq<GroupRow>,
                         groups': seq<seq<nat>>, outs': seq<GroupRow>, q: seq<nat>, b: seq<GroupRow>)
    requires keys != [] && AnswersGrouped(keys, rows, columns, having, order, offset, limit, groups, outs, p, a)
    requires AnswersGrouped(keys, rows, columns, having, order, offset, limit, groups', outs', q, b)
    requires Orderable(OutOf, order, if having.Some? then Filter(having.value, outs) else outs)
    ensures groups == groups' && outs == outs' && a == b
  {
    hide GroupsOk, Answers, Fails, Filter, Orderable, RowsOfGroups;
    OneGrouping(keys, rows, groups, groups');
    OneProjection(columns, rows, groups, outs, outs');
    OneAnswer(OutOf, if having.Some? then Filter(having.value, outs) else outs, order, offset, limit, p, a, q, b);
  }
}
