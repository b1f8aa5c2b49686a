/** What the rows of a grouped query hold (query.go), column by column and stated over the members of the group, and
    which of them the answer has. */
module GroupedAnswers {
  import opened Common
  import opened Ordering
  import opened QueryValues
  import opened StableOrder
  import opened QueryEngine
  import opened Grouping

  /** What the record stores under the name; nothing counts as null. */
  function ValueAt(r: Row, name: string): Value {
    if name in r.data then r.data[name] else Nil
  }

  // ----- Aggregates over positions -----

  ghost function NonNull(rows: seq<Row>, name: string): set<nat> {
    set k: nat | k < |rows| && ValueAt(rows[k], name) != Nil
  }

  lemma {:induction false} CountIsNonNull(rows: seq<Row>, name: string)
    ensures CountOf(rows, name) == |NonNull(rows, name)|
    decreases |rows|
  {
    if rows == [] {
      assert NonNull(rows, name) == {};
    } else {
      var n := |rows| - 1;
      CountIsNonNull(rows[..n], name);
      assert NonNull(rows, name) == NonNull(rows[..n], name) + if ValueAt(rows[n], name) != Nil then {n} else {};
    }
  }

  /** v is a non-null value of the column, or null when there is none. */
  ghost predicate IsOneOf(rows: seq<Row>, name: string, v: Value)
  {
    if NonNull(rows, name) == {} then v == Nil
    else v != Nil && exists k :: 0 <= k < |rows| && v == ValueAt(rows[k], name)
  }

  lemma {:induction false} ExtremeIsOneOf(rows: seq<Row>, name: string, least: bool)
    ensures var best := Extreme(rows, name, least);
            IsOneOf(rows, name, if best.None? then Nil else best.value) && best != Some(Nil)
    decreases |rows|
  {
    if rows != [] {
      var n := |rows| - 1;
      ExtremeIsOneOf(rows[..n], name, least);
      assert NonNull(rows, name) == NonNull(rows[..n], name) + if ValueAt(rows[n], name) != Nil then {n} else {};
    } else {
      assert NonNull(rows, name) == {};
    }
  }

  /** The number and its decimal digits. */
  function DigitOf(c: char): nat {
    if '0' <= c <= '9' then c as nat - '0' as nat else 10
  }

  function ReadDecimal(s: string): nat {
    if s == "" then 0 else 10 * ReadDecimal(s[..|s| - 1]) + DigitOf(s[|s| - 1])
  }

  lemma LastDigit(s: string, d: nat)
    requires d < 10
    ensures ReadDecimal(s + ["0123456789"[d]]) == 10 * ReadDecimal(s) + d && '0' <= "0123456789"[d] <= '9'
    ensures d > 0 ==> "0123456789"[d] != '0'
  {
    var t := s + ["0123456789"[d]];
    assert t[..|t| - 1] == s;
  }

  lemma {:induction false} DecimalReads(n: nat)
    ensures Decimal(n) != "" && ReadDecimal(Decimal(n)) == n && (n > 0 ==> Decimal(n)[0] != '0')
    ensures forall i :: 0 <= i < |Decimal(n)| ==> '0' <= Decimal(n)[i] <= '9'
  {
    LastDigit(if n < 10 then "" else Decimal(n / 10), n % 10);
    if n < 10 {
      assert "" + ["0123456789"[n]] == Decimal(n) && ReadDecimal("") == 0;
    } else {
      DecimalReads(n / 10);
    }
    hide ReadDecimal;
  }

  /** v is the integer n as Go prints it. */
  ghost predicate IsCount(v: Value, n: nat)
  {
    && v.typ == "int" && v.num == Some(n as real) && v.shown != "" && ReadDecimal(v.shown) == n
    && (forall i :: 0 <= i < |v.shown| ==> '0' <= v.shown[i] <= '9') && (n > 0 ==> v.shown[0] != '0')
  }

  lemma {:induction false} NumbersConcat(a: seq<Row>, b: seq<Row>, name: string)
    ensures Numbers(a + b, name).0 == Numbers(a, name).0 + Numbers(b, name).0
    ensures Numbers(a + b, name).1 == Numbers(a, name).1 + Numbers(b, name).1
    decreases |b|
  {
    if b == [] {
      assert a + b == a;
    } else {
      assert (a + b)[..|a + b| - 1] == a + b[..|b| - 1];
      NumbersConcat(a, b[..|b| - 1], name);
    }
  }

  /** SUM, as a number; None stands for null. */
  function Sum(rows: seq<Row>, name: string): Option<real> {
    SumValue(Numbers(rows, name), false, (x: real) => "").num
  }

  /** AVERAGE, as a number. */
  function Average(rows: seq<Row>, name: string): Option<real> {
    SumValue(Numbers(rows, name), true, (x: real) => "").num
  }

  /** SUM and AVERAGE of one record are its number. */
  lemma SumOfOne(r: Row, name: string)
    ensures Sum([r], name) == ValueAt(r, name).num == Average([r], name)
  {
    assert [r][..0] == [];
    assert Numbers([r][..0], name) == (0.0, 0);
    assert Numbers([r], name) == if ValueAt(r, name).num.Some? then (ValueAt(r, name).num.value, 1) else (0.0, 0);
  }

  /** SUM adds up over a division of the records, nulls not counting; AVERAGE lies between the averages. */
  lemma SumsAdd(a: seq<Row>, b: seq<Row>, name: string)
    ensures Sum(a + b, name) ==
            if Sum(a, name).None? then Sum(b, name)
            else if Sum(b, name).None? then Sum(a, name)
            else Some(Sum(a, name).value + Sum(b, name).value)
    ensures Average(a, name).Some? && Average(b, name).Some? && Average(a, name).value <= Average(b, name).value ==>
              Average(a + b, name).Some? && Average(a, name).value <= Average(a + b, name).value <= Average(b, name).value
  {
    NumbersConcat(a, b, name);
    NoneIsZero(a, name);
    NoneIsZero(b, name);
    var (s, m) := Numbers(a, name);
    var (t, n) := Numbers(b, name);
    hide Numbers;
    if m > 0 && n > 0 && s / m as real <= t / n as real {
      Mediant(s, m as real, t, n as real);
    }
  }

  lemma Mediant(s: real, m: real, t: real, n: real)
    requires m > 0.0 && n > 0.0 && s / m <= t / n
    ensures s / m <= (s + t) / (m + n) <= t / n
  {
    var x, y := s / m, t / n;
    assert s == x * m && t == y * n;
    assert x * (m + n) <= s + t <= y * (m + n) by {
      assert x * n <= y * n && x * m <= y * m;
    }
    Divides(x, s + t, y, m + n);
  }

  lemma Divides(x: real, sum: real, y: real, d: real)
    requires d > 0.0 && x * d <= sum <= y * d
    ensures x <= sum / d <= y
  {
    var q := sum / d;
    assert q * d == sum;
    assert q < x ==> q * d < x * d;
    assert q > y ==> q * d > y * d;
  }

  lemma {:induction false} NoneIsZero(rows: seq<Row>, name: string)
    ensures Numbers(rows, name).1 == 0 ==> Numbers(rows, name).0 == 0.0
    decreases |rows|
  {
    if rows != [] {
      NoneIsZero(rows[..|rows| - 1], name);
    }
  }

  // ----- Grouping by id -----

  /** Grouped by $id, records are together exactly when they have the same id. */
  lemma GroupedById(a: Row, b: Row)
    requires SEPARATOR !in a.id && SEPARATOR !in b.id
    ensures GroupKey([Field("$id")], a).Some? && GroupKey([Field("$id")], b).Some?
    ensures GroupKey([Field("$id")], a) == GroupKey([Field("$id")], b) <==> a.id == b.id
  {
    var keys := [Field("$id")];
    PartsAt(keys, a);
    PartsAt(keys, b);
    SameKeyIff((typ: string, text: string) => Nil, keys, a, b);
    assert keys[0] == Field("$id");
  }

  // ----- Output rows -----

  /** What a column of the output row holds, given the members of its group. */
  ghost predicate ColumnHolds(e: GroupExpr, members: seq<Row>, v: Value)
  {
    match e
    case GroupField(name) => v == if members == [] then Nil else ValueAt(members[0], name)
    case GroupConstant(w) => v == w
    case CountAll => IsCount(v, |members|)
    case CountField(name) => IsCount(v, |NonNull(members, name)|)
    case MinMax(name, least) =>
      && IsOneOf(members, name, v)
      && (IsOrdered(ColumnOf(members, name)) ==>
            forall k :: 0 <= k < |members| && ValueAt(members[k], name) != Nil ==>
              if least then !ValueBefore(ValueAt(members[k], name), v) else !ValueBefore(v, ValueAt(members[k], name)))
    case Sum(name, average, show) =>
      && (v != Nil ==> v.typ == "float64" && v.num.Some? && v.shown == show(v.num.value))
      && v == SumValue(Numbers(members, name), average, show)
    case UnsupportedGroup => false
  }

  lemma ResolvedHolds(e: GroupExpr, members: seq<Row>)
    requires ResolveGroup(e, members).Some?
    ensures ColumnHolds(e, members, ResolveGroup(e, members).value)
  {
    match e
    case CountAll => DecimalReads(|members|);
    case CountField(name) =>
      CountIsNonNull(members, name);
      DecimalReads(CountOf(members, name));
    case MinMax(name, least) => ExtremeHolds(members, name, least);
    case _ =>
  }

  lemma ExtremeHolds(members: seq<Row>, name: string, least: bool)
    ensures ColumnHolds(MinMax(name, least), members, ResolveGroup(MinMax(name, least), members).value)
  {
    ExtremeIsOneOf(members, name, least);
    var column, best := ColumnOf(members, name), Extreme(members, name, least);
    if IsOrdered(column) {
      ExtremeBounds(members, name, least, column);
      hide Extreme;
      forall k | 0 <= k < |members| && ValueAt(members[k], name) != Nil
        ensures best.Some?
        ensures best.Some? ==>
                  if least then !ValueBefore(ValueAt(members[k], name), best.value) else !ValueBefore(best.value, ValueAt(members[k], name))
      {
        var w := ValueAt(members[k], name);
        assert w in column;
        CompareMirrors(best.value, w);
        CompareValuesIs(w, best.value);
        CompareValuesIs(best.value, w);
      }
    }
  }

  /** In the answer to a grouped query every row is the output row of a group: each column that no later one
      overwrites holds what it stands for, over the members of that group. */
  lemma AnswerColumnsHold(keys: seq<Expr>, rows: seq<Row>, columns: seq<Column>, having: Option<Condition<GroupRow>>,
                          order: seq<OrderBy>, offset: int, limit: int, groups: seq<seq<nat>>, outs: seq<GroupRow>, p: seq<nat>,
                          result: seq<GroupRow>, i: nat) returns (g: nat)
    requires keys != [] && i < |result|
    requires AnswersGrouped(keys, rows, columns, having, order, offset, limit, groups, outs, p, result)
    ensures g < |groups| && (forall k :: 0 <= k < |groups[g]| ==> groups[g][k] < |rows|)
    ensures result[i].rows == Arranged(rows, groups[g])
    ensures having.Some? ==> having.value(result[i]) == Some(true)
    ensures forall c :: 0 <= c < |columns| && (forall d :: c < d < |columns| ==> columns[d].out != columns[c].out) ==>
              columns[c].out in result[i].out && ColumnHolds(columns[c].expr, result[i].rows, result[i].out[columns[c].out])
  {
    hide GroupsOk, Answers, Filter, Projected, ColumnHolds;
    g := AnswerRow(keys, rows, columns, having, order, offset, limit, groups, outs, p, result, i);
    forall c | 0 <= c < |columns| && (forall d :: c < d < |columns| ==> columns[d].out != columns[c].out)
      ensures columns[c].out in result[i].out && ColumnHolds(columns[c].expr, result[i].rows, result[i].out[columns[c].out])
    {
      ColumnIsOut(columns, outs[g].rows, c);
      ResolvedHolds(columns[c].expr, outs[g].rows);
    }
  }

  lemma AnswerRow(keys: seq<Expr>, rows: seq<Row>, columns: seq<Column>, having: Option<Condition<GroupRow>>,
                  order: seq<OrderBy>, offset: int, limit: int, groups: seq<seq<nat>>, outs: seq<GroupRow>, p: seq<nat>,
                  result: seq<GroupRow>, i: nat) returns (g: nat)
    requires keys != [] && i < |result|
    requires AnswersGrouped(keys, rows, columns, having, order, offset, limit, groups, outs, p, result)
    ensures g < |outs| && outs[g] == result[i] && (having.Some? ==> having.value(result[i]) == Some(true))
  {
    hide GroupsOk, RowsOfGroups, Answers, Filter;
    var matching := if having.Some? then Filter(having.value, outs) else outs;
    AnswerIsOfMatching(OutOf, matching, order, offset, limit, p, result);
    assert result[i] in matching;
    if having.Some? {
      g := FilteredFrom(having.value, outs, result[i]);
    } else {
      g :| 0 <= g < |outs| && outs[g] == result[i];
    }
  }

  lemma FilteredFrom<T(!new)>(cond: Condition<T>, s: seq<T>, x: T) returns (k: nat)
    requires x in Filter(cond, s)
    ensures k < |s| && s[k] == x && cond(x) == Some(true)
  {
    var q := FilterSelects(cond, s);
    var m :| 0 <= m < |Filter(cond, s)| && Filter(cond, s)[m] == x;
    assert q[m] in q;
    k := q[m];
  }

  /** Without offset and limit, every group whose output row passes HAVING is in the answer, once. */
  lemma EveryGroupAnswers(keys: seq<Expr>, rows: seq<Row>, columns: seq<Column>, having: Option<Condition<GroupRow>>,
                          order: seq<OrderBy>, groups: seq<seq<nat>>, outs: seq<GroupRow>, p: seq<nat>, result: seq<GroupRow>)
    requires keys != [] && AnswersGrouped(keys, rows, columns, having, order, 0, 0, groups, outs, p, result)
    ensures |outs| == |groups|
    ensures having.None? ==> |result| == |groups|
    ensures forall g :: 0 <= g < |groups| && (having.Some? ==> having.value(outs[g]) == Some(true)) ==> outs[g] in result
  {
    var matching := if having.Some? then Filter(having.value, outs) else outs;
    AnswerIsOfMatching(OutOf, matching, order, 0, 0, p, result);
    assert |multiset(result)| == |multiset(matching)|;
    forall g | 0 <= g < |groups| && (having.Some? ==> having.value(outs[g]) == Some(true))
      ensures outs[g] in result
    {
      if having.Some? {
        var q := FilterSelects(having.value, outs);
        var m :| 0 <= m < |q| && q[m] == g;
        assert matching[m] == outs[g];
      }
      assert outs[g] in multiset(matching);
    }
  }
}
