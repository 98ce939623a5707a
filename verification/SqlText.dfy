/** Statements as text: what is printed is parsed back. */
module SqlText {
  import opened Storage
  import opened Decimals
  import opened Lexer
  import opened Parsing
  import opened Records
  import S = Statements

  // ---------- The words of a statement ----------

  function NameWord(name: string): Word {
    Word(Identifier, name)
  }

  function KeyWord(keyword: string): Word {
    Word(Keyword, keyword)
  }

  function ValueWord(v: Value): Word {
    match v
    case IntValue(n) => Word(Integer, Decimal(n))
    case TextValue(text) => Word(Str, text)
  }

  function OperatorName(op: S.Operator): string {
    match op
    case EQ => "="
    case NE => "!="
    case LT => "<"
    case LE => "<="
    case GT => ">"
    case GE => ">="
  }

  function WhereWords(w: S.Where): seq<Word> {
    [KeyWord("WHERE"), NameWord(w.column), Word(Operator, OperatorName(w.op)), ValueWord(w.value)]
  }

  function ColumnWords(cols: Schema): seq<Word> {
    if cols == [] then []
    else [NameWord(cols[0].name), KeyWord(TypeName(cols[0].columnType))]
         + if |cols| == 1 then [] else [Word(Comma, ",")] + ColumnWords(cols[1..])
  }

  function ValueWords(vals: Row): seq<Word> {
    if vals == [] then []
    else [ValueWord(vals[0])] + if |vals| == 1 then [] else [Word(Comma, ",")] + ValueWords(vals[1..])
  }

  function StatementWords(s: S.Statement): seq<Word> {
    match s
    case CreateTable(n, cols) =>
      [KeyWord("CREATE"), KeyWord("TABLE"), NameWord(n), Word(LeftParen, "(")] + ColumnWords(cols) + [Word(RightParen, ")")]
    case CreateIndex(name, n, column) =>
      [KeyWord("CREATE"), KeyWord("INDEX"), NameWord(name), KeyWord("ON"), NameWord(n), Word(LeftParen, "("),
       NameWord(column), Word(RightParen, ")")]
    case Insert(n, vals) =>
      [KeyWord("INSERT"), KeyWord("INTO"), NameWord(n), KeyWord("VALUES"), Word(LeftParen, "(")] + ValueWords(vals)
      + [Word(RightParen, ")")]
    case Select(n, filter) =>
      [KeyWord("SELECT"), Word(Star, "*"), KeyWord("FROM"), NameWord(n)] + if filter.None? then [] else WhereWords(filter.value)
    case Delete(n, w) =>
      [KeyWord("DELETE"), KeyWord("FROM"), NameWord(n)] + WhereWords(w)
    case Transaction(c) =>
      [KeyWord(CommandName(c))]
  }

  ghost predicate NamedColumns(cols: Schema) {
    forall i :: 0 <= i < |cols| ==> IsName(cols[i].name)
  }

  ghost predicate NamedWhere(w: S.Where) {
    IsName(w.column)
  }

  /** Every name in the statement is an identifier that is not a keyword. */
  ghost predicate Printable(s: S.Statement) {
    match s
    case CreateTable(n, cols) => IsName(n) && cols != [] && NamedColumns(cols)
    case CreateIndex(name, n, column) => IsName(name) && IsName(n) && IsName(column)
    case Insert(n, _) => IsName(n)
    case Select(n, filter) => IsName(n) && (filter.Some? ==> NamedWhere(filter.value))
    case Delete(n, w) => IsName(n) && NamedWhere(w)
    case Transaction(_) => true
  }

  // ---------- Words are spellable ----------

  ghost predicate AllSpellable(ws: seq<Word>) {
    forall i :: 0 <= i < |ws| ==> Spellable(ws[i])
  }

  lemma ValueSpellable(v: Value)
    ensures Spellable(ValueWord(v))
  {
    if v.IntValue? {
      DecimalRead(v.n);
    }
  }

  lemma {:induction false} ColumnsSpellable(cols: Schema)
    requires NamedColumns(cols)
    ensures AllSpellable(ColumnWords(cols))
  {
    if cols != [] {
      ColumnsSpellable(cols[1..]);
    }
  }

  lemma {:induction false} ValuesSpellable(vals: Row)
    ensures AllSpellable(ValueWords(vals))
  {
    if vals != [] {
      ValueSpellable(vals[0]);
      ValuesSpellable(vals[1..]);
    }
  }

  lemma SpellableConcat(a: seq<Word>, b: seq<Word>)
    requires AllSpellable(a) && AllSpellable(b)
    ensures AllSpellable(a + b)
  {
  }

  lemma WhereSpellable(w: S.Where)
    requires NamedWhere(w)
    ensures AllSpellable(WhereWords(w))
  {
    ValueSpellable(w.value);
    hide ValueWord;
  }

  lemma StatementSpellable(s: S.Statement)
    requires Printable(s)
    ensures AllSpellable(StatementWords(s))
  {
    match s
    case CreateTable(n, cols) => TableSpellable(n, cols);
    case CreateIndex(name, n, column) => IndexSpellable(name, n, column);
    case Insert(n, vals) => InsertSpellable(n, vals);
    case Select(n, filter) => SelectSpellable(n, filter);
    case Delete(n, w) =>
      var head := [KeyWord("DELETE"), KeyWord("FROM"), NameWord(n)];
      assert AllSpellable(head);
      WhereSpellable(w);
      hide Spellable, WhereWords;
      SpellableConcat(head, WhereWords(w));
    case Transaction(_) =>
  }

  lemma TableSpellable(n: string, cols: Schema)
    requires Printable(S.CreateTable(n, cols))
    ensures AllSpellable(StatementWords(S.CreateTable(n, cols)))
  {
    var head, close := [KeyWord("CREATE"), KeyWord("TABLE"), NameWord(n), Word(LeftParen, "(")], [Word(RightParen, ")")];
    assert AllSpellable(head) && AllSpellable(close);
    ColumnsSpellable(cols);
    hide Spellable, ColumnWords;
    SpellableConcat(head, ColumnWords(cols));
    SpellableConcat(head + ColumnWords(cols), close);
  }

  lemma IndexSpellable(name: string, n: string, column: string)
    requires Printable(S.CreateIndex(name, n, column))
    ensures AllSpellable(StatementWords(S.CreateIndex(name, n, column)))
  {
  }

  lemma InsertSpellable(n: string, vals: Row)
    requires Printable(S.Insert(n, vals))
    ensures AllSpellable(StatementWords(S.Insert(n, vals)))
  {
    var head, close := [KeyWord("INSERT"), KeyWord("INTO"), NameWord(n), KeyWord("VALUES"), Word(LeftParen, "(")], [Word(RightParen, ")")];
    assert AllSpellable(head) && AllSpellable(close);
    ValuesSpellable(vals);
    hide Spellable, ValueWords;
    SpellableConcat(head, ValueWords(vals));
    SpellableConcat(head + ValueWords(vals), close);
  }

  lemma SelectSpellable(n: string, filter: Option<S.Where>)
    requires Printable(S.Select(n, filter))
    ensures AllSpellable(StatementWords(S.Select(n, filter)))
  {
    var head := [KeyWord("SELECT"), Word(Star, "*"), KeyWord("FROM"), NameWord(n)];
    assert AllSpellable(head);
    if filter.Some? {
      WhereSpellable(filter.value);
    }
    hide Spellable, WhereWords;
    SpellableConcat(head, if filter.None? then [] else WhereWords(filter.value));
  }

  // ---------- The words of a statement spell it ----------

  /** At position `k` the words name the column `c`, with a comma behind it if there are more. */
  ghost predicate NamesColumn(ws: seq<Word>, k: nat, c: Column, more: bool) {
    && k + 1 < |ws| && ws[k] == NameWord(c.name) && ws[k + 1] == KeyWord(TypeName(c.columnType))
    && (more ==> k + 2 < |ws| && ws[k + 2] == Word(Comma, ","))
  }

  lemma {:induction false} ColumnNamed(cols: Schema, i: nat)
    requires i < |cols|
    ensures |ColumnWords(cols)| == 3 * |cols| - 1 && NamesColumn(ColumnWords(cols), 3 * i, cols[i], i < |cols| - 1)
    decreases |cols|
  {
    ColumnWordsFirst(cols);
    if |cols| > 1 {
      hide *;
      FirstNamed(ColumnWords(cols[1..]), cols[0]);
      if i == 0 {
        ColumnNamed(cols[1..], 0);
      } else {
        ColumnNamed(cols[1..], i - 1);
        ShiftedNamed(ColumnWords(cols[1..]), cols[0], 3 * (i - 1), cols[i], i < |cols| - 1);
        assert cols[1..][i - 1] == cols[i] && 3 * (i - 1) + 3 == 3 * i;
      }
    }
  }

  lemma FirstNamed(ws: seq<Word>, c: Column)
    ensures var all := [NameWord(c.name), KeyWord(TypeName(c.columnType)), Word(Comma, ",")] + ws;
      |all| == |ws| + 3 && NamesColumn(all, 0, c, true)
  {
  }

  lemma ShiftedNamed(ws: seq<Word>, first: Column, k: nat, c: Column, more: bool)
    ensures var all := [NameWord(first.name), KeyWord(TypeName(first.columnType)), Word(Comma, ",")] + ws;
      NamesColumn(ws, k, c, more) ==> NamesColumn(all, k + 3, c, more)
  {
  }

  lemma ColumnWordsFirst(cols: Schema)
    requires cols != []
    ensures var a, b := NameWord(cols[0].name), KeyWord(TypeName(cols[0].columnType));
      ColumnWords(cols) == if |cols| == 1 then [a, b] else [a, b, Word(Comma, ",")] + ColumnWords(cols[1..])
  {
  }

  lemma ColumnWordsAt(cols: Schema, i: nat)
    requires i < |cols|
    ensures var ws := ColumnWords(cols);
      && |ws| == 3 * |cols| - 1
      && ws[3 * i] == NameWord(cols[i].name) && ws[3 * i + 1] == KeyWord(TypeName(cols[i].columnType))
      && (i < |cols| - 1 ==> ws[3 * i + 2] == Word(Comma, ","))
  {
    ColumnNamed(cols, i);
    hide ColumnWords, NameWord, KeyWord, TypeName;
  }

  lemma {:induction false} ValueWordsAt(vals: Row, i: nat)
    requires i < |vals|
    ensures var ws := ValueWords(vals);
      && |ws| == 2 * |vals| - 1 && ws[2 * i] == ValueWord(vals[i])
      && (i < |vals| - 1 ==> ws[2 * i + 1] == Word(Comma, ","))
    decreases |vals|
  {
    if |vals| > 1 {
      ValueWordsAt(vals[1..], if i == 0 then 0 else i - 1);
    }
  }

  /** From position `p` on the tokens are the given words. */
  ghost predicate WordsAt(ts: seq<Token>, p: nat, ws: seq<Word>) {
    p + |ws| <= |ts| && forall i :: 0 <= i < |ws| ==> ts[p + i].word == ws[i]
  }

  lemma ColumnsSpelled(ts: seq<Token>, p: nat, cols: Schema)
    requires cols != [] && WordsAt(ts, p, ColumnWords(cols))
    ensures SpellsColumns(ts, p, cols) && |ColumnWords(cols)| == 3 * |cols| - 1
  {
    ColumnWordsAt(cols, 0);
    forall i | 0 <= i < |cols| ensures SpellsColumn(ts, p + 3 * i, cols[i]) {
      ColumnWordsAt(cols, i);
      assert ts[p + (3 * i)].word == ColumnWords(cols)[3 * i];
      assert ts[p + (3 * i + 1)].word == ColumnWords(cols)[3 * i + 1];
    }
    forall i | 0 <= i < |cols| - 1 ensures IsKind(ts, p + 3 * i + 2, Comma) {
      ColumnWordsAt(cols, i);
      assert ts[p + (3 * i + 2)].word == ColumnWords(cols)[3 * i + 2];
    }
  }

  lemma LiteralSpelled(ts: seq<Token>, p: nat, v: Value)
    requires p < |ts| && ts[p].word == ValueWord(v)
    ensures IsLiteral(ts, p, v)
  {
    if v.IntValue? {
      DecimalRead(v.n);
    }
  }

  lemma ValuesSpelled(ts: seq<Token>, p: nat, vals: Row)
    requires WordsAt(ts, p, ValueWords(vals))
    ensures SpellsValues(ts, p, vals) && p + |ValueWords(vals)| == ValuesEnd(p, |vals|)
  {
    if vals != [] {
      ValueWordsAt(vals, 0);
    }
    forall i | 0 <= i < |vals| ensures IsLiteral(ts, p + 2 * i, vals[i]) {
      ValueWordsAt(vals, i);
      assert ts[p + (2 * i)].word == ValueWords(vals)[2 * i];
      LiteralSpelled(ts, p + 2 * i, vals[i]);
    }
    forall i | 0 <= i < |vals| - 1 ensures IsKind(ts, p + 2 * i + 1, Comma) {
      ValueWordsAt(vals, i);
      assert ts[p + (2 * i + 1)].word == ValueWords(vals)[2 * i + 1];
    }
  }

  lemma WhereSpelled(ts: seq<Token>, p: nat, w: S.Where)
    requires WordsAt(ts, p, WhereWords(w))
    ensures SpellsWhere(ts, p, w)
  {
    var ws := WhereWords(w);
    assert ts[p + 0].word == ws[0] && ts[p + 1].word == ws[1] && ts[p + 2].word == ws[2] && ts[p + 3].word == ws[3];
    LiteralSpelled(ts, p + 3, w.value);
  }

  lemma WordsSplit(ts: seq<Token>, p: nat, a: seq<Word>, b: seq<Word>)
    requires WordsAt(ts, p, a + b)
    ensures WordsAt(ts, p, a) && WordsAt(ts, p + |a|, b)
  {
    forall i | 0 <= i < |a| ensures ts[p + i].word == a[i] {
      assert (a + b)[i] == a[i];
    }
    forall i | 0 <= i < |b| ensures ts[p + |a| + i].word == b[i] {
      assert (a + b)[|a| + i] == b[i];
    }
  }

  /** The canonical words of a statement spell it. */
  lemma BodySpelled(ts: seq<Token>, s: S.Statement)
    requires Printable(s) && WordsAt(ts, 0, StatementWords(s))
    ensures SpellsBody(ts, |StatementWords(s)|, s)
  {
    match s
    case CreateTable(n, cols) => TableSpelled(ts, n, cols);
    case CreateIndex(name, n, column) => IndexSpelled(ts, name, n, column);
    case Insert(n, vals) => InsertSpelled(ts, n, vals);
    case Select(n, filter) => SelectSpelled(ts, n, filter);
    case Delete(n, w) =>
      var head := [KeyWord("DELETE"), KeyWord("FROM"), NameWord(n)];
      WordsSplit(ts, 0, head, WhereWords(w));
      WhereSpelled(ts, 3, w);
      assert ts[0].word == head[0] && ts[1].word == head[1] && ts[2].word == head[2];
    case Transaction(c) =>
      assert ts[0].word == StatementWords(s)[0];
  }

  lemma TableSpelled(ts: seq<Token>, n: string, cols: Schema)
    requires cols != [] && WordsAt(ts, 0, StatementWords(S.CreateTable(n, cols)))
    ensures SpellsBody(ts, |StatementWords(S.CreateTable(n, cols))|, S.CreateTable(n, cols))
  {
    var head, close := [KeyWord("CREATE"), KeyWord("TABLE"), NameWord(n), Word(LeftParen, "(")], [Word(RightParen, ")")];
    assert StatementWords(S.CreateTable(n, cols)) == head + ColumnWords(cols) + close;
    hide SpellsColumns, ColumnWords, StatementWords;
    WordsSplit(ts, 0, head + ColumnWords(cols), close);
    WordsSplit(ts, 0, head, ColumnWords(cols));
    ColumnsSpelled(ts, 4, cols);
    assert ts[0].word == head[0] && ts[1].word == head[1] && ts[2].word == head[2] && ts[3].word == head[3];
    assert ts[4 + |ColumnWords(cols)| + 0].word == close[0];
  }

  lemma IndexSpelled(ts: seq<Token>, name: string, n: string, column: string)
    requires WordsAt(ts, 0, StatementWords(S.CreateIndex(name, n, column)))
    ensures SpellsBody(ts, |StatementWords(S.CreateIndex(name, n, column))|, S.CreateIndex(name, n, column))
  {
    var ws := StatementWords(S.CreateIndex(name, n, column));
    assert ts[0].word == ws[0] && ts[1].word == ws[1] && ts[2].word == ws[2] && ts[3].word == ws[3];
    assert ts[4].word == ws[4] && ts[5].word == ws[5] && ts[6].word == ws[6] && ts[7].word == ws[7];
  }

  lemma InsertSpelled(ts: seq<Token>, n: string, vals: Row)
    requires WordsAt(ts, 0, StatementWords(S.Insert(n, vals)))
    ensures SpellsBody(ts, |StatementWords(S.Insert(n, vals))|, S.Insert(n, vals))
  {
    var head, close := [KeyWord("INSERT"), KeyWord("INTO"), NameWord(n), KeyWord("VALUES"), Word(LeftParen, "(")], [Word(RightParen, ")")];
    WordsSplit(ts, 0, head + ValueWords(vals), close);
    WordsSplit(ts, 0, head, ValueWords(vals));
    ValuesSpelled(ts, 5, vals);
    hide SpellsValues, ValueWords;
    assert ts[0].word == head[0] && ts[1].word == head[1] && ts[2].word == head[2] && ts[3].word == head[3] && ts[4].word == head[4];
    assert ts[5 + |ValueWords(vals)| + 0].word == close[0];
  }

  lemma SelectSpelled(ts: seq<Token>, n: string, filter: Option<S.Where>)
    requires WordsAt(ts, 0, StatementWords(S.Select(n, filter)))
    ensures SpellsBody(ts, |StatementWords(S.Select(n, filter))|, S.Select(n, filter))
  {
    var head := [KeyWord("SELECT"), Word(Star, "*"), KeyWord("FROM"), NameWord(n)];
    WordsSplit(ts, 0, head, if filter.None? then [] else WhereWords(filter.value));
    if filter.Some? {
      WhereSpelled(ts, 4, filter.value);
    }
    hide SpellsWhere, WhereWords;
    assert ts[0].word == head[0] && ts[1].word == head[1] && ts[2].word == head[2] && ts[3].word == head[3];
  }

  // ---------- Parsing what was printed ----------

  /** The end of a text: the end-of-file token, with or without a semicolon before it. */
  function Closing(semicolon: bool): seq<Word> {
    (if semicolon then [Word(Semicolon, ";")] else []) + [Word(Eof, "")]
  }

  lemma WordsSpell(ts: seq<Token>, s: S.Statement, semicolon: bool)
    requires Printable(s) && TokenWords(ts) == StatementWords(s) + Closing(semicolon)
    ensures Spells(ts, s)
  {
    hide *;
    var ws, end := StatementWords(s), Closing(semicolon);
    AllWordsAt(ts, ws + end);
    WordsSplit(ts, 0, ws, end);
    BodySpelled(ts, s);
    EndSpelled(ts, |ws|, semicolon);
    SpellsMeans(ts, |ws|, s);
  }

  lemma EndSpelled(ts: seq<Token>, p: nat, semicolon: bool)
    requires WordsAt(ts, p, Closing(semicolon))
    ensures p < |ts| && Ends(ts, p)
  {
    var end := Closing(semicolon);
    assert ts[p + 0].word == end[0];
    assert semicolon ==> ts[p + 1].word == end[1];
  }

  lemma SpellsMeans(ts: seq<Token>, q: nat, s: S.Statement)
    requires q < |ts| && SpellsBody(ts, q, s) && Ends(ts, q)
    ensures Spells(ts, s)
  {
  }

  lemma AllWordsAt(ts: seq<Token>, ws: seq<Word>)
    requires TokenWords(ts) == ws
    ensures WordsAt(ts, 0, ws) && |ts| == |ws|
  {
    forall i | 0 <= i < |ws| ensures ts[0 + i].word == ws[i] {
      assert TokenWords(ts)[i] == ts[i].word;
    }
  }

  /** The tokens of the text spell the statement. */
  ghost predicate TextSpells(sql: string, s: S.Statement) {
    var tokens := Lex(sql, 0);
    tokens.Parsed? && Spells(tokens.value, s)
  }

  /** Parses one SQL statement: the one that the text spells, if there is one. */
  method Parse(sql: string) returns (r: Parsed<S.Statement>)
    ensures forall s :: TextSpells(sql, s) <==> r == Parsed(s)
  {
    var tokens := Tokenize(sql);
    if tokens.SyntaxError? {
      return SyntaxError(tokens.at);
    }
    LexTerminated(sql, 0);
    var parser := new Parser(tokens.value);
    r := parser.ParseStatement();
  }

  /** The words of a statement, with any sufficient spacing. */
  ghost predicate SpacedOut(items: seq<Spaced>, end: string, s: S.Statement, semicolon: bool) {
    Printable(s) && WellSpaced(items, end) && WordsOf(items) + [Word(Eof, "")] == StatementWords(s) + Closing(semicolon)
  }

  /** White space between tokens, and a final semicolon, do not matter. */
  lemma SpacedOutSpells(items: seq<Spaced>, end: string, s: S.Statement, semicolon: bool)
    requires SpacedOut(items, end, s, semicolon)
    ensures TextSpells(TextOf(items, end), s)
  {
    Lexer.TextRead(items, end, 0);
    WordsSpell(Lex(TextOf(items, end), 0).value, s, semicolon);
  }

  lemma {:induction false} LexTerminated(s: string, position: nat)
    requires Lex(s, position).Parsed?
    ensures Terminated(Lex(s, position).value)
    decreases |s|
  {
    hide FirstToken;
    if s != [] {
      if IsSpace(s[0]) {
        LexTerminated(s[1..], position + 1);
      } else {
        FirstTokenLength(s);
        FirstTokenKind(s);
        LexTerminated(s[FirstToken(s).value.1..], position + FirstToken(s).value.1);
      }
    }
  }

  lemma FirstTokenKind(s: string)
    requires s != [] && !IsSpace(s[0]) && FirstToken(s).Parsed?
    ensures FirstToken(s).value.0.kind != Eof
  {
  }

  // ---------- Canonical texts ----------

  /** Words separated by single spaces. */
  function Apart(ws: seq<Word>): (items: seq<Spaced>)
    ensures WordsOf(items) == ws
  {
    if ws == [] then [] else
      var rest := Apart(ws[1..]);
      assert WordsOf([Spaced(" ", ws[0])] + rest) == [ws[0]] + WordsOf(rest);
      [Spaced(" ", ws[0])] + rest
  }

  /** The canonical text of a statement. */
  function Print(s: S.Statement): string {
    TextOf(Apart(StatementWords(s)), "")
  }

  lemma {:induction false} ApartSpaced(ws: seq<Word>)
    requires AllSpellable(ws)
    ensures WellSpaced(Apart(ws), "")
    ensures ws != [] ==> TextOf(Apart(ws), "") != [] && TextOf(Apart(ws), "")[0] == ' '
  {
    if ws != [] {
      ApartSpaced(ws[1..]);
      assert Apart(ws)[1..] == Apart(ws[1..]);
      assert !Sticks(ws[0], ' ');
    }
  }

  /** Parsing the canonical text of a statement gives the statement, for every list length, every integer
      and every string, quotes included. */
  lemma PrintParse(s: S.Statement)
    requires Printable(s)
    ensures TextSpells(Print(s), s)
  {
    StatementSpellable(s);
    ApartSpaced(StatementWords(s));
    hide WellSpaced, TextOf, StatementWords, Apart, TextSpells;
    SpacedOutSpells(Apart(StatementWords(s)), "", s, false);
  }

  // ---------- schema_for ----------

  function ColumnText(c: Column): string {
    c.name + " " + TypeName(c.columnType)
  }

  function JoinColumns(cols: Schema): string {
    if cols == [] then ""
    else if |cols| == 1 then ColumnText(cols[0])
    else ColumnText(cols[0]) + ", " + JoinColumns(cols[1..])
  }

  /** Names and types, with ", " between the columns. */
  lemma {:induction false} ColumnsJoined(a: Schema, b: Schema, name: string)
    ensures JoinColumns([Column(name, IntType)]) == name + " INT" && JoinColumns([Column(name, TextType)]) == name + " TEXT"
    ensures a != [] && b != [] ==> JoinColumns(a + b) == JoinColumns(a) + ", " + JoinColumns(b)
  {
    if a != [] && b != [] {
      assert (a + b)[1..] == a[1..] + b;
      if |a| > 1 {
        ColumnsJoined(a[1..], b, name);
      }
    }
  }

  /** A table's schema as a CREATE TABLE statement. */
  function SchemaFor(n: string, cols: Schema): string {
    "CREATE TABLE " + n + " (" + JoinColumns(cols) + ");"
  }

  function ColumnItems(cols: Schema, gap: string): seq<Spaced> {
    if cols == [] then []
    else [Spaced(gap, NameWord(cols[0].name)), Spaced(" ", KeyWord(TypeName(cols[0].columnType)))]
         + if |cols| == 1 then [] else [Spaced("", Word(Comma, ","))] + ColumnItems(cols[1..], " ")
  }

  function SchemaTail(): seq<Spaced> {
    [Spaced("", Word(RightParen, ")")), Spaced("", Word(Semicolon, ";"))]
  }

  lemma {:induction false} ColumnItemsWords(cols: Schema, gap: string)
    ensures WordsOf(ColumnItems(cols, gap)) == ColumnWords(cols)
    decreases |cols|
  {
    if |cols| > 1 {
      ColumnItemsWords(cols[1..], " ");
    }
  }

  /** The column list, its closing parenthesis and the semicolon. */
  lemma {:induction false} ColumnItemsText(cols: Schema, gap: string)
    requires cols != [] && NamedColumns(cols) && AllSpace(gap)
    ensures TextOf(ColumnItems(cols, gap) + SchemaTail(), "") == gap + JoinColumns(cols) + ");"
    ensures WellSpaced(ColumnItems(cols, gap) + SchemaTail(), "")
    decreases |cols|
  {
    hide TextOf, WellSpaced, SchemaTail, JoinColumns;
    TailText();
    if |cols| == 1 {
      LastColumnText(cols, gap);
    } else {
      ColumnItemsText(cols[1..], " ");
      NextColumnText(cols, gap, ColumnItems(cols[1..], " ") + SchemaTail());
      assert ColumnItems(cols, gap) + SchemaTail() == ColumnFront(cols[0], gap) + ([Spaced("", Word(Comma, ","))] + (ColumnItems(cols[1..], " ") + SchemaTail()));
    }
  }

  function ColumnFront(c: Column, gap: string): seq<Spaced> {
    [Spaced(gap, NameWord(c.name)), Spaced(" ", KeyWord(TypeName(c.columnType)))]
  }

  lemma LastColumnText(cols: Schema, gap: string)
    requires |cols| == 1 && NamedColumns(cols) && AllSpace(gap)
    requires TextOf(SchemaTail(), "") == ");" && WellSpaced(SchemaTail(), "")
    ensures TextOf(ColumnItems(cols, gap) + SchemaTail(), "") == gap + JoinColumns(cols) + ");"
    ensures WellSpaced(ColumnItems(cols, gap) + SchemaTail(), "")
  {
    hide TextOf, WellSpaced, SchemaTail;
    var c := cols[0];
    ItemsTwo(gap, NameWord(c.name), KeyWord(TypeName(c.columnType)), SchemaTail(), ");");
    assert ColumnItems(cols, gap) == ColumnFront(c, gap);
    assert gap + c.name + " " + TypeName(c.columnType) + ");" == gap + (c.name + " " + TypeName(c.columnType)) + ");";
  }

  lemma NextColumnText(cols: Schema, gap: string, rest: seq<Spaced>)
    requires |cols| > 1 && NamedColumns(cols) && AllSpace(gap)
    requires TextOf(rest, "") == " " + JoinColumns(cols[1..]) + ");" && WellSpaced(rest, "")
    ensures var items := ColumnFront(cols[0], gap) + ([Spaced("", Word(Comma, ","))] + rest);
      TextOf(items, "") == gap + JoinColumns(cols) + ");" && WellSpaced(items, "")
  {
    var c, text := cols[0], " " + JoinColumns(cols[1..]) + ");";
    var more := [Spaced("", Word(Comma, ","))] + rest;
    CommaText(rest, text);
    hide TextOf, WellSpaced;
    ItemsTwo(gap, NameWord(c.name), KeyWord(TypeName(c.columnType)), more, "," + text);
    Joined(gap, c.name, TypeName(c.columnType), JoinColumns(cols[1..]));
  }

  lemma Joined(gap: string, name: string, t: string, rest: string)
    ensures gap + name + " " + t + ("," + (" " + rest + ");")) == gap + (name + " " + t + ", " + rest) + ");"
  {
    assert ", " == "," + " ";
  }

  lemma CommaText(rest: seq<Spaced>, text: string)
    requires TextOf(rest, "") == text && WellSpaced(rest, "")
    ensures var more := [Spaced("", Word(Comma, ","))] + rest; TextOf(more, "") == "," + text && WellSpaced(more, "")
  {
    assert ([Spaced("", Word(Comma, ","))] + rest)[1..] == rest;
  }

  lemma TailText()
    ensures TextOf(SchemaTail(), "") == ");" && WellSpaced(SchemaTail(), "")
  {
    var tail := SchemaTail();
    assert tail[1..] == [Spaced("", Word(Semicolon, ";"))] && tail[1..][1..] == [];
    assert TextOf(tail[1..], "") == ";";
    assert WellSpaced(tail[1..], "");
  }

  /** A name and a keyword in front of a text that starts with punctuation. */
  lemma ItemsTwo(gap: string, name: Word, t: Word, rest: seq<Spaced>, text: string)
    requires name.kind == Identifier && t.kind == Keyword && Spellable(name) && Spellable(t) && AllSpace(gap)
    requires TextOf(rest, "") == text && text != [] && !InWord(text[0]) && WellSpaced(rest, "")
    ensures var items := [Spaced(gap, name), Spaced(" ", t)] + rest;
      TextOf(items, "") == gap + name.value + " " + t.value + text && WellSpaced(items, "")
  {
    hide TextOf, WellSpaced;
    var inner := [Spaced(" ", t)] + rest;
    OneItem(" ", t, rest, text);
    OneItem(gap, name, inner, " " + t.value + text);
    assert [Spaced(gap, name), Spaced(" ", t)] + rest == [Spaced(gap, name)] + inner;
    assert gap + name.value + (" " + t.value + text) == gap + name.value + " " + t.value + text;
  }

  function SchemaHead(n: string): seq<Spaced> {
    [Spaced("", KeyWord("CREATE")), Spaced(" ", KeyWord("TABLE")), Spaced(" ", NameWord(n)), Spaced(" ", Word(LeftParen, "("))]
  }

  lemma HeadText(n: string, rest: seq<Spaced>, text: string)
    requires IsName(n) && TextOf(rest, "") == text && WellSpaced(rest, "")
    ensures TextOf(SchemaHead(n) + rest, "") == "CREATE TABLE " + n + " (" + text
    ensures WellSpaced(SchemaHead(n) + rest, "")
  {
    hide TextOf, WellSpaced, SchemaHead;
    KeywordsSpellable();
    var t1 := " " + "(" + text;
    var t2 := " " + n + t1;
    var t3 := " " + "TABLE" + t2;
    var open := [Spaced(" ", Word(LeftParen, "("))] + rest;
    OneItem(" ", Word(LeftParen, "("), rest, text);
    var name := [Spaced(" ", NameWord(n))] + open;
    OneItem(" ", NameWord(n), open, t1);
    var table := [Spaced(" ", KeyWord("TABLE"))] + name;
    OneItem(" ", KeyWord("TABLE"), name, t2);
    OneItem("", KeyWord("CREATE"), table, t3);
    HeadItems(n, rest);
    HeadJoined(n, text);
  }

  lemma KeywordsSpellable()
    ensures Spellable(KeyWord("CREATE")) && Spellable(KeyWord("TABLE")) && Spellable(Word(LeftParen, "("))
  {
  }

  lemma HeadItems(n: string, rest: seq<Spaced>)
    ensures SchemaHead(n) + rest ==
      [Spaced("", KeyWord("CREATE"))] + ([Spaced(" ", KeyWord("TABLE"))] + ([Spaced(" ", NameWord(n))] + ([Spaced(" ", Word(LeftParen, "("))] + rest)))
  {
  }

  lemma HeadJoined(n: string, text: string)
    ensures "" + "CREATE" + (" " + "TABLE" + (" " + n + (" " + "(" + text))) == "CREATE TABLE " + n + " (" + text
  {
  }

  /** One more token in front of a text it does not stick to. */
  lemma OneItem(gap: string, w: Word, rest: seq<Spaced>, text: string)
    requires Spellable(w) && w.kind != Str && AllSpace(gap) && TextOf(rest, "") == text && WellSpaced(rest, "") && Loose(w, text)
    ensures var items := [Spaced(gap, w)] + rest; TextOf(items, "") == gap + w.value + text && WellSpaced(items, "")
  {
    assert ([Spaced(gap, w)] + rest)[1..] == rest;
  }

  /** What `schema_for` prints for a table is parsed back as the table's CREATE TABLE statement. */
  lemma SchemaForParses(n: string, cols: Schema)
    requires IsName(n) && cols != [] && NamedColumns(cols)
    ensures TextSpells(SchemaFor(n, cols), S.CreateTable(n, cols))
  {
    hide TextOf, WellSpaced, JoinColumns, TextSpells;
    var rest := ColumnItems(cols, "") + SchemaTail();
    ColumnItemsText(cols, "");
    HeadText(n, rest, "" + JoinColumns(cols) + ");");
    ColumnItemsWords(cols, "");
    var items, s := SchemaHead(n) + rest, S.CreateTable(n, cols);
    SchemaWords(n, cols);
    SpacedOutSpells(items, "", s, true);
    assert "CREATE TABLE " + n + " (" + ("" + JoinColumns(cols) + ");") == SchemaFor(n, cols);
  }

  lemma SchemaWords(n: string, cols: Schema)
    requires WordsOf(ColumnItems(cols, "")) == ColumnWords(cols)
    ensures WordsOf(SchemaHead(n) + (ColumnItems(cols, "") + SchemaTail())) + [Word(Eof, "")]
         == StatementWords(S.CreateTable(n, cols)) + Closing(true)
  {
    hide ColumnItems, ColumnWords;
    var items := ColumnItems(cols, "");
    assert WordsOf(SchemaHead(n) + (items + SchemaTail())) == WordsOf(SchemaHead(n)) + (WordsOf(items) + WordsOf(SchemaTail()));
    assert WordsOf(SchemaHead(n)) == [KeyWord("CREATE"), KeyWord("TABLE"), NameWord(n), Word(LeftParen, "(")];
    assert WordsOf(SchemaTail()) == [Word(RightParen, ")"), Word(Semicolon, ";")];
  }
}
