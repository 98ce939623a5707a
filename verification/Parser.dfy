/** The recursive-descent parser, proved to accept exactly the spelled statements. */
module Parsing {
  import opened Storage
  import opened Decimals
  import opened Lexer
  import opened Records
  import S = Statements

  // ---------- What the tokens of a statement look like ----------

  /** Exactly one end-of-file token, at the end; it has no text. */
  ghost predicate Terminated(ts: seq<Token>) {
    ts != [] && forall i :: 0 <= i < |ts| ==>
      (ts[i].word.kind == Eof <==> i == |ts| - 1) && (ts[i].word.kind == Eof ==> ts[i].word.value == "")
  }

  predicate IsWord(ts: seq<Token>, p: nat, w: Word) {
    p < |ts| && ts[p].word == w
  }

  predicate IsKeyword(ts: seq<Token>, p: nat, keyword: string) {
    IsWord(ts, p, Word(Keyword, keyword))
  }

  predicate IsKind(ts: seq<Token>, p: nat, kind: Kind) {
    p < |ts| && ts[p].word.kind == kind
  }

  predicate IsIdentifier(ts: seq<Token>, p: nat, name: string) {
    IsWord(ts, p, Word(Identifier, name))
  }

  /** Only the text of the token counts, whatever its kind. */
  predicate IsType(ts: seq<Token>, p: nat, t: ColumnType) {
    p < |ts| && ts[p].word.value == TypeName(t)
  }

  function TypeName(t: ColumnType): string {
    match t
    case IntType => "INT"
    case TextType => "TEXT"
  }

  predicate IsLiteral(ts: seq<Token>, p: nat, v: Value) {
    p < |ts| && LiteralOf(ts[p].word) == Some(v)
  }

  /** The value that a literal token stands for. */
  function LiteralOf(w: Word): Option<Value> {
    if w.kind == Integer && IsNumeral(w.value) then Some(IntValue(IntOf(w.value)))
    else if w.kind == Str then Some(TextValue(w.value))
    else None
  }

  function OperatorOf(value: string): Option<S.Operator> {
    if value == "=" then Some(S.EQ) else if value == "!=" then Some(S.NE) else if value == "<" then Some(S.LT)
    else if value == "<=" then Some(S.LE) else if value == ">" then Some(S.GT) else if value == ">=" then Some(S.GE) else None
  }

  predicate IsCompare(ts: seq<Token>, p: nat, op: S.Operator) {
    p < |ts| && ts[p].word.kind == Operator && OperatorOf(ts[p].word.value) == Some(op)
  }

  /** The words of a WHERE clause. */
  ghost predicate SpellsWhere(ts: seq<Token>, p: nat, w: S.Where) {
    && IsKeyword(ts, p, "WHERE") && IsIdentifier(ts, p + 1, w.column) && IsCompare(ts, p + 2, w.op) && IsLiteral(ts, p + 3, w.value)
  }

  /** Name and type of a column. */
  ghost predicate SpellsColumn(ts: seq<Token>, p: nat, c: Column) {
    IsIdentifier(ts, p, c.name) && IsType(ts, p + 1, c.columnType)
  }

  ghost predicate SpellsColumns(ts: seq<Token>, p: nat, cols: Schema) {
    && (forall i :: 0 <= i < |cols| ==> SpellsColumn(ts, p + 3 * i, cols[i]))
    && forall i :: 0 <= i < |cols| - 1 ==> IsKind(ts, p + 3 * i + 2, Comma)
  }

  ghost predicate SpellsValues(ts: seq<Token>, p: nat, vals: Row) {
    && (forall i :: 0 <= i < |vals| ==> IsLiteral(ts, p + 2 * i, vals[i]))
    && forall i :: 0 <= i < |vals| - 1 ==> IsKind(ts, p + 2 * i + 1, Comma)
  }

  function CommandName(c: S.Command): string {
    match c
    case Begin => "BEGIN"
    case Commit => "COMMIT"
    case Rollback => "ROLLBACK"
  }

  /** The position behind a list of values that starts at `p`. */
  function ValuesEnd(p: nat, count: nat): nat {
    if count == 0 then p else p + 2 * count - 1
  }

  /** The tokens before position `q` are those of the statement. */
  ghost predicate SpellsBody(ts: seq<Token>, q: nat, s: S.Statement) {
    match s
    case CreateTable(n, cols) =>
      && IsKeyword(ts, 0, "CREATE") && IsKeyword(ts, 1, "TABLE") && IsIdentifier(ts, 2, n) && IsKind(ts, 3, LeftParen)
      && cols != [] && SpellsColumns(ts, 4, cols) && IsKind(ts, 3 * |cols| + 3, RightParen) && q == 3 * |cols| + 4
    case CreateIndex(name, n, column) =>
      && IsKeyword(ts, 0, "CREATE") && IsKeyword(ts, 1, "INDEX") && IsIdentifier(ts, 2, name) && IsKeyword(ts, 3, "ON")
      && IsIdentifier(ts, 4, n) && IsKind(ts, 5, LeftParen) && IsIdentifier(ts, 6, column) && IsKind(ts, 7, RightParen) && q == 8
    case Insert(n, vals) =>
      && IsKeyword(ts, 0, "INSERT") && IsKeyword(ts, 1, "INTO") && IsIdentifier(ts, 2, n) && IsKeyword(ts, 3, "VALUES")
      && IsKind(ts, 4, LeftParen) && SpellsValues(ts, 5, vals) && IsKind(ts, ValuesEnd(5, |vals|), RightParen)
      && q == ValuesEnd(5, |vals|) + 1
    case Select(n, filter) =>
      && IsKeyword(ts, 0, "SELECT") && IsKind(ts, 1, Star) && IsKeyword(ts, 2, "FROM") && IsIdentifier(ts, 3, n)
      && (filter.None? ==> q == 4) && (filter.Some? ==> SpellsWhere(ts, 4, filter.value) && q == 8)
    case Delete(n, w) =>
      && IsKeyword(ts, 0, "DELETE") && IsKeyword(ts, 1, "FROM") && IsIdentifier(ts, 2, n) && SpellsWhere(ts, 3, w) && q == 7
    case Transaction(c) =>
      IsKeyword(ts, 0, CommandName(c)) && q == 1
  }

  /** Nothing but an optional semicolon is left at `q`. */
  ghost predicate Ends(ts: seq<Token>, q: nat) {
    IsKind(ts, q, Eof) || (IsKind(ts, q, Semicolon) && IsKind(ts, q + 1, Eof))
  }

  /** The whole token list spells the statement. */
  ghost predicate Spells(ts: seq<Token>, s: S.Statement) {
    exists q :: 0 <= q < |ts| && SpellsBody(ts, q, s) && Ends(ts, q)
  }

  /** Nothing but an optional semicolon follows the first token. */
  predicate Over(ts: seq<Token>) {
    |ts| > 1 && (ts[1].word.kind == Eof || (|ts| > 2 && ts[1].word.kind == Semicolon && ts[2].word.kind == Eof))
  }

  /** One keyword, with or without a semicolon, is all that opens or closes a transaction. */
  lemma CommandsSpelled(ts: seq<Token>)
    ensures Spells(ts, S.Transaction(S.Begin)) <==> Over(ts) && ts[0].word == Word(Keyword, "BEGIN")
    ensures Spells(ts, S.Transaction(S.Commit)) <==> Over(ts) && ts[0].word == Word(Keyword, "COMMIT")
    ensures Spells(ts, S.Transaction(S.Rollback)) <==> Over(ts) && ts[0].word == Word(Keyword, "ROLLBACK")
  {
    if |ts| > 1 {
      assert Ends(ts, 1) <==> ts[1].word.kind == Eof || (|ts| > 2 && ts[1].word.kind == Semicolon && ts[2].word.kind == Eof);
      forall c ensures Spells(ts, S.Transaction(c)) <==> SpellsBody(ts, 1, S.Transaction(c)) && Ends(ts, 1) {
      }
    }
  }

  // ---------- The parser ----------

  class Parser {
    const tokens: seq<Token>
    var position: nat

    constructor (tokens: seq<Token>)
      requires Terminated(tokens)
      ensures this.tokens == tokens && position == 0 && Ready()
    {
      this.tokens, position := tokens, 0;
    }

    /** The next token may be looked at. */
    ghost predicate Ready()
      reads this
    {
      Terminated(tokens) && position < |tokens|
    }

    function Peek(): Word
      requires position < |tokens|
      reads this
    {
      tokens[position].word
    }

    /** Takes the next token if it is of the given kind. */
    method Expect(kind: Kind) returns (r: Parsed<string>)
      requires Ready()
      modifies this
      ensures r.Parsed? <==> IsKind(tokens, old(position), kind)
      ensures r.Parsed? ==> position == old(position) + 1 && r.value == tokens[old(position)].word.value
      ensures r.SyntaxError? ==> position == old(position)
      ensures kind != Eof || r.SyntaxError? ==> Ready()
    {
      if Peek().kind == kind {
        r := Parsed(Peek().value);
        position := position + 1;
      } else {
        r := SyntaxError(tokens[position].position);
      }
    }

    method ExpectKeyword(keyword: string) returns (r: Parsed<()>)
      requires Ready()
      modifies this
      ensures Ready()
      ensures r.Parsed? <==> IsKeyword(tokens, old(position), keyword)
      ensures position == old(position) + if r.Parsed? then 1 else 0
    {
      if MatchesKeyword(keyword) {
        position := position + 1;
        r := Parsed(());
      } else {
        r := SyntaxError(tokens[position].position);
      }
    }

    predicate MatchesKeyword(keyword: string)
      requires position < |tokens|
      reads this
    {
      Peek() == Word(Keyword, keyword)
    }

    /** Takes the next token if it is of the given kind; says whether it did. */
    method Match(kind: Kind) returns (matched: bool)
      requires Ready() && kind != Eof
      modifies this
      ensures Ready() && matched == IsKind(tokens, old(position), kind)
      ensures position == old(position) + if matched then 1 else 0
    {
      matched := Peek().kind == kind;
      if matched {
        position := position + 1;
      }
    }

    method ParseColumnType() returns (r: Parsed<ColumnType>)
      requires Ready()
      modifies this
      ensures Ready()
      ensures forall t :: IsType(tokens, old(position), t) <==> r == Parsed(t)
      ensures position == old(position) + if r.Parsed? then 1 else 0
    {
      if Peek().value == "INT" {
        position := position + 1;
        return Parsed(IntType);
      }
      if Peek().value == "TEXT" {
        position := position + 1;
        return Parsed(TextType);
      }
      return SyntaxError(tokens[position].position);
    }

    method ParseValue() returns (r: Parsed<Value>)
      requires Ready()
      modifies this
      ensures Ready()
      ensures forall v :: IsLiteral(tokens, old(position), v) <==> r == Parsed(v)
      ensures position == old(position) + if r.Parsed? then 1 else 0
    {
      if Peek().kind == Integer && IsNumeral(Peek().value) {
        r := Parsed(IntValue(IntOf(Peek().value)));
        position := position + 1;
      } else if Peek().kind == Str {
        r := Parsed(TextValue(Peek().value));
        position := position + 1;
      } else {
        r := SyntaxError(tokens[position].position);
      }
    }

    method ParseOptionalWhere() returns (r: Parsed<Option<S.Where>>)
      requires Ready()
      modifies this
      ensures Ready()
      ensures r == Parsed(None) <==> !IsKeyword(tokens, old(position), "WHERE")
      ensures r == Parsed(None) ==> position == old(position)
      ensures forall w :: SpellsWhere(tokens, old(position), w) <==> r == Parsed(Some(w))
      ensures r.Parsed? && r.value.Some? ==> position == old(position) + 4
    {
      if !MatchesKeyword("WHERE") {
        return Parsed(None);
      }
      var keyword := ExpectKeyword("WHERE");
      var column := Expect(Identifier);
      if column.SyntaxError? {
        return SyntaxError(column.at);
      }
      var op := Expect(Operator);
      if op.SyntaxError? {
        return SyntaxError(op.at);
      }
      if OperatorOf(op.value).None? {
        return SyntaxError(position);
      }
      var value := ParseValue();
      if value.SyntaxError? {
        return SyntaxError(value.at);
      }
      return Parsed(Some(S.Where(column.value, OperatorOf(op.value).value, value.value)));
    }

    method ParseColumn() returns (r: Parsed<Column>)
      requires Ready()
      modifies this
      ensures Ready()
      ensures forall c :: SpellsColumn(tokens, old(position), c) <==> r == Parsed(c)
      ensures r.Parsed? ==> position == old(position) + 2
    {
      var name := Expect(Identifier);
      if name.SyntaxError? {
        return SyntaxError(name.at);
      }
      var columnType := ParseColumnType();
      if columnType.SyntaxError? {
        return SyntaxError(columnType.at);
      }
      return Parsed(Column(name.value, columnType.value));
    }

    /** The column list of CREATE TABLE, from behind its parenthesis. */
    method ParseColumns() returns (r: Parsed<Schema>)
      requires Ready()
      modifies this
      ensures Ready()
      ensures r.Parsed? ==> r.value != [] && SpellsColumns(tokens, old(position), r.value)
      ensures r.Parsed? ==> position == old(position) + 3 * |r.value| - 1
      ensures forall cols :: ListsColumns(tokens, old(position), cols) ==> r == Parsed(cols)
    {
      hide SpellsColumn, SpellsColumns, ListsColumns, ColumnsStart, Terminated;
      ghost var p := position;
      var columns: Schema := [];
      NoColumns(tokens, p);
      while true
        invariant Ready() && position == p + 3 * |columns| && SpellsColumns(tokens, p, columns)
        invariant columns != [] ==> IsKind(tokens, p + 3 * |columns| - 1, Comma)
        invariant ColumnsStart(tokens, p, columns, true)
        decreases |tokens| - position
      {
        var column := ParseColumn();
        NextColumn(tokens, p, columns, column);
        if column.SyntaxError? {
          return SyntaxError(column.at);
        }
        columns := columns + [column.value];
        var comma := Match(Comma);
        ColumnsGoOn(tokens, p, columns, comma);
        if !comma {
          break;
        }
      }
      return Parsed(columns);
    }

    /** The value list of INSERT, from behind its parenthesis. */
    method ParseValues() returns (r: Parsed<Row>)
      requires Ready()
      modifies this
      ensures Ready()
      ensures r.Parsed? ==> SpellsValues(tokens, old(position), r.value) && position == ValuesEnd(old(position), |r.value|)
      ensures forall vals :: ListsValues(tokens, old(position), vals) ==> r == Parsed(vals)
    {
      hide IsLiteral, SpellsValues, ListsValues, ValuesStart, Terminated;
      ghost var p := position;
      var values: Row := [];
      NoValues(tokens, p);
      if Peek().kind == RightParen {
        return Parsed([]);
      }
      while true
        invariant Ready() && position == p + 2 * |values| && SpellsValues(tokens, p, values)
        invariant values != [] ==> IsKind(tokens, p + 2 * |values| - 1, Comma)
        invariant ValuesStart(tokens, p, values, true)
        decreases |tokens| - position
      {
        var value := ParseValue();
        NextValue(tokens, p, values, value);
        if value.SyntaxError? {
          return SyntaxError(value.at);
        }
        values := values + [value.value];
        var comma := Match(Comma);
        ValuesGoOn(tokens, p, values, comma);
        if !comma {
          break;
        }
      }
      return Parsed(values);
    }

    // ---------- Statements ----------

    method ParseCreateTable() returns (r: Parsed<S.Statement>)
      requires Ready() && position == 1 && IsKeyword(tokens, 0, "CREATE") && IsKeyword(tokens, 1, "TABLE")
      modifies this
      ensures Ready() && Decided(tokens, r, position)
    {
      hide SpellsColumns, Ends, Terminated;
      TableBodies(tokens);
      var keyword := ExpectKeyword("TABLE");
      var name := Expect(Identifier);
      if name.SyntaxError? {
        return SyntaxError(name.at);
      }
      var open := Expect(LeftParen);
      if open.SyntaxError? {
        return SyntaxError(open.at);
      }
      var columns := ParseColumns();
      if columns.SyntaxError? {
        return SyntaxError(columns.at);
      }
      var close := Expect(RightParen);
      if close.SyntaxError? {
        return SyntaxError(close.at);
      }
      return Parsed(S.CreateTable(name.value, columns.value));
    }

    method ParseCreateIndex() returns (r: Parsed<S.Statement>)
      requires Ready() && position == 1 && IsKeyword(tokens, 0, "CREATE") && IsKeyword(tokens, 1, "INDEX")
      modifies this
      ensures Ready() && Decided(tokens, r, position)
    {
      hide SpellsColumns, SpellsValues, SpellsWhere, Ends, Terminated;
      IndexBodies(tokens);
      var keyword := ExpectKeyword("INDEX");
      var name := Expect(Identifier);
      if name.SyntaxError? {
        return SyntaxError(name.at);
      }
      var on := ExpectKeyword("ON");
      if on.SyntaxError? {
        return SyntaxError(on.at);
      }
      var table := Expect(Identifier);
      if table.SyntaxError? {
        return SyntaxError(table.at);
      }
      var open := Expect(LeftParen);
      if open.SyntaxError? {
        return SyntaxError(open.at);
      }
      var column := Expect(Identifier);
      if column.SyntaxError? {
        return SyntaxError(column.at);
      }
      var close := Expect(RightParen);
      if close.SyntaxError? {
        return SyntaxError(close.at);
      }
      return Parsed(S.CreateIndex(name.value, table.value, column.value));
    }

    method ParseCreate() returns (r: Parsed<S.Statement>)
      requires Ready() && position == 0 && IsKeyword(tokens, 0, "CREATE")
      modifies this
      ensures Ready() && Decided(tokens, r, position)
    {
      var keyword := ExpectKeyword("CREATE");
      if MatchesKeyword("TABLE") {
        r := ParseCreateTable();
      } else if MatchesKeyword("INDEX") {
        r := ParseCreateIndex();
      } else {
        r := SyntaxError(tokens[position].position);
      }
    }

    method ParseInsert() returns (r: Parsed<S.Statement>)
      requires Ready() && position == 0 && IsKeyword(tokens, 0, "INSERT")
      modifies this
      ensures Ready() && Decided(tokens, r, position)
    {
      hide SpellsColumns, SpellsValues, SpellsWhere, Ends, Terminated;
      InsertBodies(tokens);
      var keyword := ExpectKeyword("INSERT");
      var into := ExpectKeyword("INTO");
      if into.SyntaxError? {
        return SyntaxError(into.at);
      }
      var name := Expect(Identifier);
      if name.SyntaxError? {
        return SyntaxError(name.at);
      }
      var word := ExpectKeyword("VALUES");
      if word.SyntaxError? {
        return SyntaxError(word.at);
      }
      var open := Expect(LeftParen);
      if open.SyntaxError? {
        return SyntaxError(open.at);
      }
      var values := ParseValues();
      if values.SyntaxError? {
        return SyntaxError(values.at);
      }
      var close := Expect(RightParen);
      if close.SyntaxError? {
        return SyntaxError(close.at);
      }
      return Parsed(S.Insert(name.value, values.value));
    }

    method ParseSelect() returns (r: Parsed<S.Statement>)
      requires Ready() && position == 0 && IsKeyword(tokens, 0, "SELECT")
      modifies this
      ensures Ready() && Decided(tokens, r, position)
    {
      hide SpellsColumns, SpellsValues, SpellsWhere, Ends, Terminated;
      SelectBodies(tokens);
      var keyword := ExpectKeyword("SELECT");
      var star := Expect(Star);
      if star.SyntaxError? {
        return SyntaxError(star.at);
      }
      var from := ExpectKeyword("FROM");
      if from.SyntaxError? {
        return SyntaxError(from.at);
      }
      var name := Expect(Identifier);
      if name.SyntaxError? {
        return SyntaxError(name.at);
      }
      var filter := ParseOptionalWhere();
      if filter.SyntaxError? {
        return SyntaxError(filter.at);
      }
      return Parsed(S.Select(name.value, filter.value));
    }

    method ParseDelete() returns (r: Parsed<S.Statement>)
      requires Ready() && position == 0 && IsKeyword(tokens, 0, "DELETE")
      modifies this
      ensures Ready() && Decided(tokens, r, position)
    {
      hide SpellsColumns, SpellsValues, SpellsWhere, Ends, Terminated;
      DeleteBodies(tokens);
      var keyword := ExpectKeyword("DELETE");
      var from := ExpectKeyword("FROM");
      if from.SyntaxError? {
        return SyntaxError(from.at);
      }
      var name := Expect(Identifier);
      if name.SyntaxError? {
        return SyntaxError(name.at);
      }
      var filter := ParseOptionalWhere();
      if filter.SyntaxError? {
        return SyntaxError(filter.at);
      }
      if filter.value.None? {
        return SyntaxError(tokens[position].position);
      }
      return Parsed(S.Delete(name.value, filter.value.value));
    }

    method ParseTransaction() returns (r: Parsed<S.Statement>)
      requires Ready() && position == 0 && Peek().value in {"BEGIN", "COMMIT", "ROLLBACK"}
      modifies this
      ensures Ready() && Decided(tokens, r, position)
      ensures r == Parsed(S.Transaction(S.Begin)) <==> tokens[0].word == Word(Keyword, "BEGIN")
      ensures r == Parsed(S.Transaction(S.Commit)) <==> tokens[0].word == Word(Keyword, "COMMIT")
      ensures r == Parsed(S.Transaction(S.Rollback)) <==> tokens[0].word == Word(Keyword, "ROLLBACK")
    {
      hide SpellsColumns, SpellsValues, SpellsWhere, Ends, Terminated;
      var command := Peek().value;
      var keyword := ExpectKeyword(command);
      if keyword.SyntaxError? {
        return SyntaxError(keyword.at);
      }
      return Parsed(S.Transaction(if command == "BEGIN" then S.Begin else if command == "COMMIT" then S.Commit else S.Rollback));
    }

    /** Parses one statement and requires that nothing but a semicolon follows it. */
    method ParseStatement() returns (r: Parsed<S.Statement>)
      requires Ready() && position == 0
      modifies this
      ensures forall s :: Spells(tokens, s) <==> r == Parsed(s)
      ensures r == Parsed(S.Transaction(S.Begin)) <==> IsKeyword(tokens, 0, "BEGIN") && Over(tokens)
      ensures r == Parsed(S.Transaction(S.Commit)) <==> IsKeyword(tokens, 0, "COMMIT") && Over(tokens)
      ensures r == Parsed(S.Transaction(S.Rollback)) <==> IsKeyword(tokens, 0, "ROLLBACK") && Over(tokens)
      ensures position <= |tokens|
    {
      hide Decided, SpellsBody, Spells, Terminated;
      CommandsSpelled(tokens);
      var keyword := Peek();
      StatementStarts(tokens);
      if MatchesKeyword("CREATE") {
        r := ParseCreate();
      } else if MatchesKeyword("INSERT") {
        r := ParseInsert();
      } else if MatchesKeyword("SELECT") {
        r := ParseSelect();
      } else if MatchesKeyword("DELETE") {
        r := ParseDelete();
      } else if Peek().value in {"BEGIN", "COMMIT", "ROLLBACK"} {
        r := ParseTransaction();
      } else {
        NoStatement(tokens);
        return SyntaxError(tokens[position].position);
      }
      DecidedEnds(tokens, r, position);
      if r.SyntaxError? {
        return;
      }
      var semicolon := Match(Semicolon);
      var eof := Expect(Eof);
      if eof.SyntaxError? {
        return SyntaxError(eof.at);
      }
    }
  }

  // ---------- Lists ----------

  ghost predicate ListsColumns(ts: seq<Token>, p: nat, cols: Schema) {
    cols != [] && SpellsColumns(ts, p, cols) && IsKind(ts, p + 3 * |cols| - 1, RightParen)
  }

  /** Any column list at `p` starts with `columns`, and goes on behind them if `more`. */
  ghost predicate ColumnsStart(ts: seq<Token>, p: nat, columns: Schema, more: bool) {
    forall cols :: ListsColumns(ts, p, cols) ==> if more then columns < cols else cols == columns
  }

  lemma NoColumns(ts: seq<Token>, p: nat)
    ensures SpellsColumns(ts, p, []) && ColumnsStart(ts, p, [], true)
  {
  }

  lemma NextColumn(ts: seq<Token>, p: nat, columns: Schema, r: Parsed<Column>)
    requires ColumnsStart(ts, p, columns, true) && SpellsColumns(ts, p, columns)
    requires columns != [] ==> IsKind(ts, p + 3 * |columns| - 1, Comma)
    requires forall c :: SpellsColumn(ts, p + 3 * |columns|, c) <==> r == Parsed(c)
    ensures r.SyntaxError? ==> forall cols :: !ListsColumns(ts, p, cols)
    ensures r.Parsed? ==> SpellsColumns(ts, p, columns + [r.value])
    ensures r.Parsed? ==> forall cols :: ListsColumns(ts, p, cols) ==> columns + [r.value] <= cols
  {
    hide *;
    forall cols | ListsColumns(ts, p, cols) ensures r.Parsed? && columns + [r.value] <= cols {
      NextListed(ts, p, columns, r, cols);
    }
    if r.Parsed? {
      OneMoreColumn(ts, p, columns, r.value);
    }
  }

  lemma NextListed(ts: seq<Token>, p: nat, columns: Schema, r: Parsed<Column>, cols: Schema)
    requires ColumnsStart(ts, p, columns, true) && ListsColumns(ts, p, cols)
    requires forall c :: SpellsColumn(ts, p + 3 * |columns|, c) <==> r == Parsed(c)
    ensures r.Parsed? && columns + [r.value] <= cols
  {
    hide SpellsColumn, IsKind;
    assert columns < cols && SpellsColumns(ts, p, cols);
    assert SpellsColumn(ts, p + 3 * |columns|, cols[|columns|]);
    assert r == Parsed(cols[|columns|]);
  }

  lemma OneMoreColumn(ts: seq<Token>, p: nat, columns: Schema, c: Column)
    requires SpellsColumns(ts, p, columns) && (columns != [] ==> IsKind(ts, p + 3 * |columns| - 1, Comma))
    requires SpellsColumn(ts, p + 3 * |columns|, c)
    ensures SpellsColumns(ts, p, columns + [c])
  {
    hide SpellsColumn, IsKind;
    var i, more := |columns|, columns + [c];
    forall j | 0 <= j < |more| ensures SpellsColumn(ts, p + 3 * j, more[j]) {
      if j < i {
        assert SpellsColumn(ts, p + 3 * j, columns[j]);
      }
    }
    forall j | 0 <= j < |more| - 1 ensures IsKind(ts, p + 3 * j + 2, Comma) {
      if j == i - 1 {
        assert p + 3 * j + 2 == p + 3 * i - 1;
      }
    }
  }

  lemma ColumnsGoOn(ts: seq<Token>, p: nat, columns: Schema, comma: bool)
    requires columns != [] && forall cols :: ListsColumns(ts, p, cols) ==> columns <= cols
    requires comma == IsKind(ts, p + 3 * |columns| - 1, Comma)
    ensures ColumnsStart(ts, p, columns, comma)
    ensures !comma ==> forall cols :: ListsColumns(ts, p, cols) ==> cols == columns
  {
    forall cols | ListsColumns(ts, p, cols) ensures if comma then columns < cols else cols == columns {
      if |cols| > |columns| {
        assert IsKind(ts, p + 3 * (|columns| - 1) + 2, Comma);
      }
    }
  }

  ghost predicate ListsValues(ts: seq<Token>, p: nat, vals: Row) {
    SpellsValues(ts, p, vals) && IsKind(ts, ValuesEnd(p, |vals|), RightParen)
  }

  ghost predicate ValuesStart(ts: seq<Token>, p: nat, values: Row, more: bool) {
    forall vals :: ListsValues(ts, p, vals) ==> if more then values < vals else vals == values
  }

  lemma NoValues(ts: seq<Token>, p: nat)
    ensures SpellsValues(ts, p, [])
    ensures if IsKind(ts, p, RightParen) then forall vals :: ListsValues(ts, p, vals) ==> vals == []
            else ValuesStart(ts, p, [], true)
  {
    forall vals | ListsValues(ts, p, vals) ensures vals == [] <==> IsKind(ts, p, RightParen) {
      assert vals != [] ==> IsLiteral(ts, p + 2 * 0, vals[0]);
    }
  }

  lemma NextValue(ts: seq<Token>, p: nat, values: Row, r: Parsed<Value>)
    requires ValuesStart(ts, p, values, true) && SpellsValues(ts, p, values)
    requires values != [] ==> IsKind(ts, p + 2 * |values| - 1, Comma)
    requires forall v :: IsLiteral(ts, p + 2 * |values|, v) <==> r == Parsed(v)
    ensures r.SyntaxError? ==> forall vals :: !ListsValues(ts, p, vals)
    ensures r.Parsed? ==> SpellsValues(ts, p, values + [r.value])
    ensures r.Parsed? ==> forall vals :: ListsValues(ts, p, vals) ==> values + [r.value] <= vals
  {
    var i := |values|;
    forall vals | ListsValues(ts, p, vals) ensures r == Parsed(vals[i]) {
      assert values < vals;
      assert IsLiteral(ts, p + 2 * i, vals[i]);
    }
    if r.Parsed? {
      var more := values + [r.value];
      forall j | 0 <= j < |more| ensures IsLiteral(ts, p + 2 * j, more[j]) {
        if j < i {
          assert IsLiteral(ts, p + 2 * j, values[j]);
        }
      }
      forall j | 0 <= j < |more| - 1 ensures IsKind(ts, p + 2 * j + 1, Comma) {
        if j == i - 1 {
          assert p + 2 * j + 1 == p + 2 * i - 1;
        }
      }
    }
  }

  lemma ValuesGoOn(ts: seq<Token>, p: nat, values: Row, comma: bool)
    requires values != [] && forall vals :: ListsValues(ts, p, vals) ==> values <= vals
    requires comma == IsKind(ts, p + 2 * |values| - 1, Comma)
    ensures ValuesStart(ts, p, values, comma)
    ensures !comma ==> forall vals :: ListsValues(ts, p, vals) ==> vals == values
  {
    forall vals | ListsValues(ts, p, vals) ensures if comma then values < vals else vals == values {
      if |vals| > |values| {
        assert IsKind(ts, p + 2 * (|values| - 1) + 1, Comma);
      }
    }
  }

  // ---------- Which statement can it be? ----------

  /** `r` is the only statement, if any, whose tokens end at a possible end; they end at `q`. */
  ghost predicate Decided(ts: seq<Token>, r: Parsed<S.Statement>, q: nat) {
    && (r.Parsed? ==> SpellsBody(ts, q, r.value))
    && forall s, k: nat :: SpellsBody(ts, k, s) && Ends(ts, k) ==> r == Parsed(s) && k == q
  }

  lemma TableBodies(ts: seq<Token>)
    requires IsKeyword(ts, 0, "CREATE") && IsKeyword(ts, 1, "TABLE")
    ensures forall s, k: nat :: SpellsBody(ts, k, s) ==> s.CreateTable? && ListsColumns(ts, 4, s.columns)
  {
  }

  lemma IndexBodies(ts: seq<Token>)
    requires IsKeyword(ts, 0, "CREATE") && IsKeyword(ts, 1, "INDEX")
    ensures forall s, k: nat :: SpellsBody(ts, k, s) ==> s.CreateIndex?
  {
  }

  lemma InsertBodies(ts: seq<Token>)
    requires IsKeyword(ts, 0, "INSERT")
    ensures forall s, k: nat :: SpellsBody(ts, k, s) ==> s.Insert? && ListsValues(ts, 5, s.values)
  {
  }

  lemma SelectBodies(ts: seq<Token>)
    requires IsKeyword(ts, 0, "SELECT")
    ensures forall s, k: nat :: SpellsBody(ts, k, s) ==> s.Select?
    ensures Ends(ts, 4) ==> !IsKeyword(ts, 4, "WHERE")
  {
  }

  lemma DeleteBodies(ts: seq<Token>)
    requires IsKeyword(ts, 0, "DELETE")
    ensures forall s, k: nat :: SpellsBody(ts, k, s) ==> s.Delete?
  {
  }

  lemma StatementStarts(ts: seq<Token>)
    ensures forall s, k: nat :: SpellsBody(ts, k, s) ==>
      IsKeyword(ts, 0, "CREATE") || IsKeyword(ts, 0, "INSERT") || IsKeyword(ts, 0, "SELECT") || IsKeyword(ts, 0, "DELETE")
      || (s.Transaction? && IsKeyword(ts, 0, CommandName(s.command)))
  {
  }

  lemma NoStatement(ts: seq<Token>)
    requires ts != [] && !IsKeyword(ts, 0, "CREATE") && !IsKeyword(ts, 0, "INSERT") && !IsKeyword(ts, 0, "SELECT") && !IsKeyword(ts, 0, "DELETE")
    requires ts[0].word.value !in {"BEGIN", "COMMIT", "ROLLBACK"}
    ensures forall s :: !Spells(ts, s)
  {
    StatementStarts(ts);
  }

  /** A decided statement is accepted if and only if nothing but an optional semicolon follows. */
  lemma DecidedEnds(ts: seq<Token>, r: Parsed<S.Statement>, q: nat)
    requires Decided(ts, r, q) && q < |ts|
    ensures r.SyntaxError? || !Ends(ts, q) ==> forall s :: !Spells(ts, s)
    ensures r.Parsed? && Ends(ts, q) ==> forall s :: Spells(ts, s) <==> r == Parsed(s)
  {
    hide SpellsBody, Ends;
    forall s | Spells(ts, s) ensures r == Parsed(s) && Ends(ts, q) {
      var k :| 0 <= k < |ts| && SpellsBody(ts, k, s) && Ends(ts, k);
    }
  }
}
