/** SQL statements, and what a WHERE clause means. */
module Statements {
  import opened Storage
  import opened Records

  datatype Operator = EQ | NE | LT | LE | GT | GE

  /** A simple column/value condition. */
  datatype Where = Where(column: string, op: Operator, value: Value)

  datatype Command = Begin | Commit | Rollback

  datatype Statement =
    | CreateTable(table: string, columns: Schema)
    | CreateIndex(index: string, table: string, column: string)
    | Transaction(command: Command)
    | Insert(table: string, values: Row)
    | Select(table: string, filter: Option<Where>)
    | Delete(table: string, condition: Where)

  /** The condition "column equals key". */
  function KeyQuery(column: string, key: int): Where {
    Where(column, EQ, IntValue(key))
  }

  datatype WhereError = UnknownColumn | TypeMismatch

  datatype Verdict = Holds(b: bool) | Fails(error: WhereError)

  // ---------- Comparison ----------

  /** Lexicographic order by code point. */
  predicate TextLess(a: string, b: string) {
    b != [] && (a == [] || a[0] < b[0] || (a[0] == b[0] && TextLess(a[1..], b[1..])))
  }

  predicate Less(a: Value, b: Value)
    requires a.IntValue? <==> b.IntValue?
  {
    match a
    case IntValue(n) => n < b.n
    case TextValue(text) => TextLess(text, b.text)
  }

  /** Compares two values of the same type. */
  function Compare(left: Value, op: Operator, right: Value): Verdict {
    if left.IntValue? != right.IntValue? then Fails(TypeMismatch)
    else match op
      case EQ => Holds(left == right)
      case NE => Holds(left != right)
      case LT => Holds(Less(left, right))
      case LE => Holds(left == right || Less(left, right))
      case GT => Holds(Less(right, left))
      case GE => Holds(left == right || Less(right, left))
  }

  lemma {:induction false} TextIrreflexive(a: string)
    ensures !TextLess(a, a)
  {
    if a != [] {
      TextIrreflexive(a[1..]);
    }
  }

  lemma {:induction false} TextOrder(a: string, b: string, c: string)
    ensures TextLess(a, b) || a == b || TextLess(b, a)
    ensures !(TextLess(a, b) && TextLess(b, a))
    ensures TextLess(a, b) && TextLess(b, c) ==> TextLess(a, c)
    decreases |a| + |b| + |c|
  {
    if a != [] && b != [] {
      assert a == [a[0]] + a[1..] && b == [b[0]] + b[1..];
      TextOrder(a[1..], b[1..], if c == [] then c else c[1..]);
    }
  }

  /** The texts agree up to some position, at which `a` ends first or has the smaller character. */
  ghost predicate AtFirstDifference(a: string, b: string) {
    exists k :: 0 <= k <= |a| && k <= |b| && a[..k] == b[..k] && ((k == |a| && k < |b|) || (k < |a| && k < |b| && a[k] < b[k]))
  }

  lemma {:induction false} TextLessIff(a: string, b: string)
    ensures TextLess(a, b) <==> AtFirstDifference(a, b)
  {
    forall k | 0 < k <= |a| && k <= |b| && a[..k] == b[..k] ensures a[0] == b[0] {
      assert a[0] == a[..k][0] && b[0] == b[..k][0];
    }
    if a != [] && b != [] && a[0] == b[0] {
      TextLessIff(a[1..], b[1..]);
      if TextLess(a, b) {
        var k :| 0 <= k <= |a[1..]| && k <= |b[1..]| && a[1..][..k] == b[1..][..k] &&
          ((k == |a[1..]| && k < |b[1..]|) || (k < |a[1..]| && k < |b[1..]| && a[1..][k] < b[1..][k]));
        assert a[..k + 1] == [a[0]] + a[1..][..k] && b[..k + 1] == [b[0]] + b[1..][..k];
      }
      forall k | 0 <= k <= |a| && k <= |b| && a[..k] == b[..k] && ((k == |a| && k < |b|) || (k < |a| && k < |b| && a[k] < b[k]))
        ensures TextLess(a, b)
      {
        assert a[1..][..k - 1] == a[..k][1..] && b[1..][..k - 1] == b[..k][1..];
      }
    } else if TextLess(a, b) {
      assert a[..0] == b[..0];
    }
  }

  /** The six operators are those of one strict total order on each type. */
  lemma OperatorsOfOneOrder(a: Value, b: Value, c: Value)
    requires a.IntValue? <==> b.IntValue?
    requires b.IntValue? <==> c.IntValue?
    ensures Compare(a, NE, b) == Holds(!Compare(a, EQ, b).b)
    ensures Compare(a, GE, b) == Holds(!Compare(a, LT, b).b) && Compare(a, LE, b) == Holds(!Compare(a, GT, b).b)
    ensures Compare(a, GT, b) == Compare(b, LT, a)
    ensures Compare(a, LT, b).b && Compare(b, LT, c).b ==> Compare(a, LT, c).b
    ensures a.IntValue? ==> Compare(a, LT, b) == Holds(a.n < b.n) && Compare(a, EQ, b) == Holds(a.n == b.n)
    ensures a.TextValue? ==> Compare(a, LT, b) == Holds(AtFirstDifference(a.text, b.text)) && Compare(a, EQ, b) == Holds(a.text == b.text)
  {
    if a.TextValue? {
      TextIrreflexive(a.text);
      TextOrder(a.text, b.text, c.text);
      TextLessIff(a.text, b.text);
    }
  }

  /** Integers compare as numbers. */
  lemma IntComparisons(a: int, b: int)
    ensures Compare(IntValue(a), EQ, IntValue(b)) == Holds(a == b) && Compare(IntValue(a), NE, IntValue(b)) == Holds(a != b)
    ensures Compare(IntValue(a), LT, IntValue(b)) == Holds(a < b) && Compare(IntValue(a), LE, IntValue(b)) == Holds(a <= b)
    ensures Compare(IntValue(a), GT, IntValue(b)) == Holds(a > b) && Compare(IntValue(a), GE, IntValue(b)) == Holds(a >= b)
  {
  }

  /** Texts compare character by character, and values of different types not at all. */
  lemma TextComparisons(a: string, b: string)
    ensures Compare(TextValue(a), EQ, TextValue(b)) == Holds(a == b) && Compare(TextValue(a), NE, TextValue(b)) == Holds(a != b)
    ensures Compare(TextValue(a), LT, TextValue(b)) == Holds(
      exists k :: 0 <= k <= |a| && k <= |b| && a[..k] == b[..k] && ((k == |a| && k < |b|) || (k < |a| && k < |b| && a[k] < b[k])))
    ensures Compare(TextValue(a), GT, TextValue(b)) == Compare(TextValue(b), LT, TextValue(a))
    ensures Compare(TextValue(a), LE, TextValue(b)) == Holds(!Compare(TextValue(b), LT, TextValue(a)).b)
    ensures Compare(TextValue(a), GE, TextValue(b)) == Holds(!Compare(TextValue(a), LT, TextValue(b)).b)
    ensures forall n, op :: Compare(IntValue(n), op, TextValue(a)) == Compare(TextValue(a), op, IntValue(n)) == Fails(TypeMismatch)
  {
    TextLessIff(a, b);
    TextOrder(a, b, a);
    TextIrreflexive(a);
  }

  // ---------- Conditions ----------

  /** The position of a column, or nothing. */
  function ColumnIndex(schema: Schema, name: string): (r: Option<nat>)
    ensures r.Some? ==> r.value < |schema| && schema[r.value].name == name
    ensures r.Some? ==> forall i :: 0 <= i < r.value ==> schema[i].name != name
    ensures r.None? ==> forall i :: 0 <= i < |schema| ==> schema[i].name != name
  {
    if schema == [] then None
    else if schema[0].name == name then Some(0)
    else match ColumnIndex(schema[1..], name)
      case None => None
      case Some(i) => Some(i + 1)
  }

  function MatchesWhere(schema: Schema, row: Row, filter: Option<Where>): Verdict
    requires RowMatches(schema, row)
  {
    match filter
    case None => Holds(true)
    case Some(w) =>
      match ColumnIndex(schema, w.column)
      case None => Fails(UnknownColumn)
      case Some(i) => Compare(row[i], w.op, w.value)
  }

  /** Without a condition every row is kept; with one, the value in the first column of its name is compared. */
  lemma MatchesWhereIs(schema: Schema, row: Row, column: string, op: Operator, value: Value)
    requires RowMatches(schema, row)
    ensures MatchesWhere(schema, row, None) == Holds(true)
    ensures forall c :: 0 <= c < |schema| && schema[c].name == column && (forall i :: 0 <= i < c ==> schema[i].name != column) ==>
      MatchesWhere(schema, row, Some(Where(column, op, value))) == Compare(row[c], op, value)
    ensures (forall i :: 0 <= i < |schema| ==> schema[i].name != column) ==>
      MatchesWhere(schema, row, Some(Where(column, op, value))) == Fails(UnknownColumn)
  {
  }

  /** The reason why a condition cannot be evaluated on any row of a table. */
  function WhereFails(schema: Schema, filter: Option<Where>): Option<WhereError> {
    match filter
    case None => None
    case Some(w) =>
      match ColumnIndex(schema, w.column)
      case None => Some(UnknownColumn)
      case Some(i) => if w.value.IntValue? == (schema[i].columnType == IntType) then None else Some(TypeMismatch)
  }

  /** Whether a condition can be evaluated depends on the schema only. */
  lemma WhereFailsOnEveryRow(schema: Schema, row: Row, filter: Option<Where>)
    requires RowMatches(schema, row)
    ensures MatchesWhere(schema, row, filter).Fails? <==> WhereFails(schema, filter).Some?
    ensures WhereFails(schema, filter).Some? ==> MatchesWhere(schema, row, filter) == Fails(WhereFails(schema, filter).value)
  {
  }

  /** The rows that satisfy a condition, in order. */
  function Filtered(schema: Schema, rows: seq<(RowPointer, Row)>, filter: Option<Where>): (r: seq<(RowPointer, Row)>)
    requires forall i :: 0 <= i < |rows| ==> RowMatches(schema, rows[i].1)
  {
    if rows == [] then []
    else Filtered(schema, rows[..|rows| - 1], filter) + Kept(schema, rows[|rows| - 1], filter)
  }

  function Kept(schema: Schema, row: (RowPointer, Row), filter: Option<Where>): seq<(RowPointer, Row)>
    requires RowMatches(schema, row.1)
  {
    if MatchesWhere(schema, row.1, filter) == Holds(true) then [row] else []
  }

  function RowsOf(rows: seq<(RowPointer, Row)>): (r: seq<Row>)
    ensures |r| == |rows| && forall i :: 0 <= i < |rows| ==> r[i] == rows[i].1
  {
    seq(|rows|, i requires 0 <= i < |rows| => rows[i].1)
  }
}
