/** How a query compares values (query.go): numbers by magnitude, everything else by its text, and when
    that is an order at all. */
module QueryValues {
  import opened Common
  import opened Ordering

  /** A stored value: its Go type, its %v text, and its magnitude when it is a finite number. */
  datatype Value = Value(typ: string, shown: string, num: Option<real>)

  const Nil := Value("<nil>", "<nil>", None)

  function CompareValues(a: Value, b: Value): (c: int)
    ensures -1 <= c <= 1
  {
    if a.num.Some? && b.num.Some? then
      (if a.num.value < b.num.value then -1 else if a.num.value > b.num.value then 1 else 0)
    else Compare(a.shown, b.shown)
  }

  /** Of two numbers the smaller one, otherwise the text that comes first in the dictionary. */
  ghost predicate ValueBefore(a: Value, b: Value)
  {
    if a.num.Some? && b.num.Some? then a.num.value < b.num.value else TextBefore(a.shown, b.shown)
  }

  /** Values are compared by ValueBefore. */
  lemma CompareValuesIs(a: Value, b: Value)
    ensures CompareValues(a, b) < 0 <==> ValueBefore(a, b)
    ensures CompareValues(a, b) > 0 <==> ValueBefore(b, a)
    ensures CompareValues(a, b) == 0 <==>
            if a.num.Some? && b.num.Some? then a.num.value == b.num.value else a.shown == b.shown
  {
    CompareIsTextOrder(a.shown, b.shown);
  }

  lemma CompareMirrors(a: Value, b: Value)
    ensures CompareValues(a, b) == -CompareValues(b, a)
  {
    CompareAntisymmetric(a.shown, b.shown);
  }

  /** Transitive on the values of a column; totality and reflexivity always hold. */
  ghost predicate IsOrdered(column: set<Value>)
  {
    forall a, b, c :: a in column && b in column && c in column ==>
      CompareValues(a, b) <= 0 && CompareValues(b, c) <= 0 ==> CompareValues(a, c) <= 0
  }

  /** No text lies between two numbers against their order. */
  ghost predicate NumbersAgree(column: set<Value>)
  {
    forall x, y, s :: x in column && y in column && s in column && x.num.Some? && y.num.Some? && s.num.None? ==>
      Compare(y.shown, s.shown) <= 0 && Compare(s.shown, x.shown) <= 0 ==>
        y.num.value < x.num.value || (y.num.value == x.num.value && y.shown == s.shown == x.shown)
  }

  lemma TwoNumbers(x: Value, y: Value, s: Value, column: set<Value>)
    requires IsOrdered(column) && x in column && y in column && s in column
    requires x.num.Some? && y.num.Some? && s.num.None?
    requires Compare(y.shown, s.shown) <= 0 && Compare(s.shown, x.shown) <= 0
    ensures y.num.value < x.num.value || (y.num.value == x.num.value && y.shown == s.shown == x.shown)
  {
    CompareMirrors(s, x);
    CompareMirrors(y, s);
    CompareMirrors(y, x);
    assert CompareValues(y, s) <= 0 && CompareValues(s, x) <= 0;
    assert CompareValues(y, x) <= 0;
    if y.num.value == x.num.value {
      assert CompareValues(x, y) <= 0;
      assert CompareValues(x, s) <= 0 && CompareValues(s, y) <= 0;
      CompareEqual(s.shown, x.shown);
      CompareEqual(y.shown, s.shown);
    }
  }

  lemma OrderedTriple(a: Value, b: Value, c: Value, column: set<Value>)
    requires NumbersAgree(column) && a in column && b in column && c in column
    requires CompareValues(a, b) <= 0 && CompareValues(b, c) <= 0
    ensures CompareValues(a, c) <= 0
  {
    CompareMirrors(a, b);
    CompareMirrors(b, c);
    CompareMirrors(a, c);
    CompareAntisymmetric(a.shown, b.shown);
    CompareAntisymmetric(b.shown, c.shown);
    CompareAntisymmetric(a.shown, c.shown);
    CompareEqual(a.shown, b.shown);
    CompareEqual(b.shown, c.shown);
    CompareEqual(a.shown, c.shown);
    if (a.num.None? && c.num.None?) || (b.num.None? && !(a.num.Some? && c.num.Some?)) {
      CompareTransitive(a.shown, b.shown, c.shown);
    }
  }

  /** compareValues orders a column exactly when its numbers agree with the texts between them. */
  lemma OrderedIff(column: set<Value>)
    ensures IsOrdered(column) <==> NumbersAgree(column)
  {
    if IsOrdered(column) {
      forall x, y, s | x in column && y in column && s in column && x.num.Some? && y.num.Some? && s.num.None?
        && Compare(y.shown, s.shown) <= 0 && Compare(s.shown, x.shown) <= 0
        ensures y.num.value < x.num.value || (y.num.value == x.num.value && y.shown == s.shown == x.shown)
      {
        TwoNumbers(x, y, s, column);
      }
    }
    if NumbersAgree(column) {
      forall a, b, c | a in column && b in column && c in column
        && CompareValues(a, b) <= 0 && CompareValues(b, c) <= 0
        ensures CompareValues(a, c) <= 0
      {
        OrderedTriple(a, b, c, column);
      }
    }
  }

  /** The text of a finite number starts with a digit or a minus sign. */
  predicate PrintsAsNumber(v: Value) {
    v.num.Some? && v.shown != "" && ('0' <= v.shown[0] <= '9' || v.shown[0] == '-')
  }

  lemma NumbersBeforeNil(v: Value)
    requires PrintsAsNumber(v)
    ensures CompareValues(v, Nil) < 0
  {
    assert Nil.shown[0] == '<';
  }

  /** Columns of finite numbers and nulls are ordered, nulls last; so are columns without numbers. */
  lemma UsualColumnsAreOrdered(column: set<Value>)
    requires (forall v :: v in column ==> PrintsAsNumber(v) || v == Nil) || (forall v :: v in column ==> v.num.None?)
    ensures IsOrdered(column)
    ensures (forall v :: v in column && v != Nil ==> PrintsAsNumber(v)) ==>
              forall v :: v in column && v != Nil ==> CompareValues(v, Nil) < 0
  {
    forall v | v in column && PrintsAsNumber(v)
      ensures Compare(v.shown, "<nil>") < 0 && Compare("<nil>", v.shown) > 0
    {
      NumbersBeforeNil(v);
      CompareAntisymmetric(v.shown, "<nil>");
    }
    assert NumbersAgree(column);
    OrderedIff(column);
  }

  /** Mixed columns need not be: 10 comes before "5", "5" before 9, and 9 before 10. */
  lemma MixedColumnsCycle()
    ensures var ten, nine, five := Value("int", "10", Some(10.0)), Value("int", "9", Some(9.0)), Value("string", "5", None);
            && CompareValues(ten, five) < 0 && CompareValues(five, nine) < 0 && CompareValues(nine, ten) < 0
            && !IsOrdered({ten, nine, five})
  {
    var ten, nine, five := Value("int", "10", Some(10.0)), Value("int", "9", Some(9.0)), Value("string", "5", None);
    assert Compare("10", "5") == -1 && Compare("5", "9") == -1;
    var column := {ten, nine, five};
    assert ten in column && five in column && nine in column;
    assert CompareValues(ten, nine) > 0;
  }

  // ----- Ordering records -----

  type Record = map<string, Value>

  /** A record with its key. */
  datatype Row = Row(id: string, data: Record)

  /** One ORDER BY expression; only field references count. */
  datatype OrderBy = OrderBy(field: Option<string>, descending: bool)

  /** What ORDER BY reads of a record. */
  function FieldOf(r: Row, field: string): Value {
    if field == "$id" then Value("string", r.id, None)
    else if field in r.data then r.data[field] else Nil
  }

  /** How ORDER BY reads a field of whatever is being ordered: records, or the rows made of groups. */
  type Reader<!T> = (T, string) -> Value

  function CompareBy<T(!new)>(get: Reader<T>, term: OrderBy, a: T, b: T): int {
    if term.field.None? then 0
    else
      var c := CompareValues(get(a, term.field.value), get(b, term.field.value));
      if term.descending then -c else c
  }

  /** The first expression that tells two records apart decides. */
  function CompareRows<T(!new)>(get: Reader<T>, order: seq<OrderBy>, a: T, b: T): int {
    if order == [] then 0
    else
      var c := CompareBy(get, order[0], a, b);
      if c != 0 then c else CompareRows(get, order[1..], a, b)
  }

  /** The columns that a query orders by are ordered. */
  ghost predicate Orderable<T(!new)>(get: Reader<T>, order: seq<OrderBy>, rows: seq<T>)
  {
    forall k :: 0 <= k < |order| && order[k].field.Some? ==>
      IsOrdered(set i | 0 <= i < |rows| :: get(rows[i], order[k].field.value))
  }

  lemma {:induction false} RowsMirror<T(!new)>(get: Reader<T>, order: seq<OrderBy>, a: T, b: T)
    ensures CompareRows(get, order, a, b) == -CompareRows(get, order, b, a)
  {
    if order != [] {
      RowsMirror(get, order[1..], a, b);
      if order[0].field.Some? {
        CompareMirrors(get(a, order[0].field.value), get(b, order[0].field.value));
      }
    }
  }

  lemma ColumnTransitive(column: set<Value>, a: Value, b: Value, c: Value)
    requires IsOrdered(column) && a in column && b in column && c in column
    requires CompareValues(a, b) <= 0 && CompareValues(b, c) <= 0
    ensures CompareValues(a, c) <= 0
    ensures CompareValues(a, b) < 0 || CompareValues(b, c) < 0 ==> CompareValues(a, c) < 0
  {
    CompareMirrors(a, b);
    CompareMirrors(b, c);
    CompareMirrors(a, c);
    if CompareValues(a, c) == 0 {
      assert CompareValues(c, a) <= 0;
      assert CompareValues(c, b) <= 0;
      assert CompareValues(b, a) <= 0;
    }
  }

  lemma ByTransitive<T(!new)>(get: Reader<T>, term: OrderBy, rows: seq<T>, a: T, b: T, c: T)
    requires Orderable(get, [term], rows) && a in rows && b in rows && c in rows
    requires CompareBy(get, term, a, b) <= 0 && CompareBy(get, term, b, c) <= 0
    ensures CompareBy(get, term, a, c) <= 0
    ensures CompareBy(get, term, a, b) < 0 || CompareBy(get, term, b, c) < 0 ==> CompareBy(get, term, a, c) < 0
  {
    if term.field.Some? {
      var f := term.field.value;
      var column := set i | 0 <= i < |rows| :: get(rows[i], f);
      assert [term][0] == term;
      assert IsOrdered(column);
      var x, y, z := get(a, f), get(b, f), get(c, f);
      assert x in column && y in column && z in column;
      CompareMirrors(x, y);
      CompareMirrors(y, z);
      CompareMirrors(x, z);
      if term.descending {
        ColumnTransitive(column, z, y, x);
      } else {
        ColumnTransitive(column, x, y, z);
      }
    }
  }

  /** Several ORDER BY expressions, some descending, still order the records. */
  lemma {:induction false} RowsTransitive<T(!new)>(get: Reader<T>, order: seq<OrderBy>, rows: seq<T>, a: T, b: T, c: T)
    requires Orderable(get, order, rows) && a in rows && b in rows && c in rows
    requires CompareRows(get, order, a, b) <= 0 && CompareRows(get, order, b, c) <= 0
    ensures CompareRows(get, order, a, c) <= 0
    decreases |order|
  {
    if order != [] {
      var term := order[0];
      assert Orderable(get, [term], rows);
      assert Orderable(get, order[1..], rows);
      ByTransitive(get, term, rows, a, b, c);
      if CompareBy(get, term, a, b) == 0 && CompareBy(get, term, b, c) == 0 {
        ByTies(get, term, rows, a, b, c);
        RowsTransitive(get, order[1..], rows, a, b, c);
      }
    }
  }

  lemma ByTies<T(!new)>(get: Reader<T>, term: OrderBy, rows: seq<T>, a: T, b: T, c: T)
    requires Orderable(get, [term], rows) && a in rows && b in rows && c in rows
    requires CompareBy(get, term, a, b) == 0 && CompareBy(get, term, b, c) == 0
    ensures CompareBy(get, term, a, c) == 0
  {
    ByMirror(get, term, a, b);
    ByMirror(get, term, b, c);
    ByMirror(get, term, a, c);
    ByTransitive(get, term, rows, a, b, c);
    ByTransitive(get, term, rows, c, b, a);
  }

  lemma ByMirror<T(!new)>(get: Reader<T>, term: OrderBy, a: T, b: T)
    ensures CompareBy(get, term, a, b) == -CompareBy(get, term, b, a)
  {
    if term.field.Some? {
      CompareMirrors(get(a, term.field.value), get(b, term.field.value));
    }
  }

  function Flipped(order: seq<OrderBy>): seq<OrderBy> {
    seq(|order|, i requires 0 <= i < |order| => order[i].(descending := !order[i].descending))
  }

  /** Turning every direction around turns the ordering around. */
  lemma {:induction false} FlippingReverses<T(!new)>(get: Reader<T>, order: seq<OrderBy>, a: T, b: T)
    ensures CompareRows(get, Flipped(order), a, b) == CompareRows(get, order, b, a)
    decreases |order|
  {
    if order != [] {
      FlippingReverses(get, order[1..], a, b);
      assert Flipped(order)[1..] == Flipped(order[1..]);
      ByMirror(get, order[0], a, b);
    }
  }

  /** An earlier expression outranks all later ones; later ones decide among records it does not tell
      apart; an ascending field follows the order of values. */
  lemma {:induction false} FirstDifferenceDecides<T(!new)>(get: Reader<T>, order: seq<OrderBy>, a: T, b: T, k: nat)
    requires k < |order| && order[k].field.Some?
    requires forall i :: 0 <= i < k && order[i].field.Some? ==>
               CompareValues(get(a, order[i].field.value), get(b, order[i].field.value)) == 0
    ensures var c := CompareValues(get(a, order[k].field.value), get(b, order[k].field.value));
            c != 0 ==> CompareRows(get, order, a, b) == if order[k].descending then -c else c
    decreases |order|
  {
    if k > 0 {
      assert CompareBy(get, order[0], a, b) == 0;
      FirstDifferenceDecides(get, order[1..], a, b, k - 1);
    }
  }
}
