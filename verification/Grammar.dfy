/** The grammar of SQL statements, and exactly which texts are parsed as which statement. */
module Grammar {
  import opened Storage
  import opened Decimals
  import opened Lexer
  import opened LexerTexts
  import opened Parsing
  import opened SqlText
  import opened Records
  import S = Statements

  // ---------- The phrases of the language ----------

  /** A literal for `v`. */
  predicate Literal(w: Word, v: Value) {
    match v
    case IntValue(n) => w.kind == Integer && IsNumeral(w.value) && IntOf(w.value) == n
    case TextValue(text) => w == Word(Str, text)
  }

  predicate Compares(w: Word, op: S.Operator) {
    match op
    case EQ => w == Word(Operator, "=")
    case NE => w == Word(Operator, "!=")
    case LT => w == Word(Operator, "<")
    case LE => w == Word(Operator, "<=")
    case GT => w == Word(Operator, ">")
    case GE => w == Word(Operator, ">=")
  }

  /** The text of the word counts, whatever its kind. */
  predicate TypeWord(w: Word, t: ColumnType) {
    match t
    case IntType => w.value == "INT"
    case TextType => w.value == "TEXT"
  }

  predicate WherePhrase(ws: seq<Word>, w: S.Where) {
    && |ws| == 4 && ws[0] == Word(Keyword, "WHERE") && ws[1] == Word(Identifier, w.column)
    && Compares(ws[2], w.op) && Literal(ws[3], w.value)
  }

  /** Literals with commas between them. */
  predicate ValuesPhrase(ws: seq<Word>, vals: Row)
    decreases |vals|
  {
    if vals == [] then ws == []
    else
      && ws != [] && Literal(ws[0], vals[0])
      && if |vals| == 1 then |ws| == 1 else |ws| > 1 && ws[1] == Word(Comma, ",") && ValuesPhrase(ws[2..], vals[1..])
  }

  /** Names with their types, with commas between them. */
  predicate ColumnsPhrase(ws: seq<Word>, cols: Schema)
    decreases |cols|
  {
    && cols != [] && |ws| > 1 && ws[0] == Word(Identifier, cols[0].name) && TypeWord(ws[1], cols[0].columnType)
    && if |cols| == 1 then |ws| == 2 else |ws| > 2 && ws[2] == Word(Comma, ",") && ColumnsPhrase(ws[3..], cols[1..])
  }

  /** `ws` are words for the statement. */
  predicate Phrase(ws: seq<Word>, s: S.Statement) {
    match s
    case CreateTable(n, cols) =>
      && |ws| > 4 && ws[..4] == [Word(Keyword, "CREATE"), Word(Keyword, "TABLE"), Word(Identifier, n), Word(LeftParen, "(")]
      && ColumnsPhrase(ws[4..|ws| - 1], cols) && ws[|ws| - 1] == Word(RightParen, ")")
    case CreateIndex(name, n, column) =>
      ws == [Word(Keyword, "CREATE"), Word(Keyword, "INDEX"), Word(Identifier, name), Word(Keyword, "ON"), Word(Identifier, n),
             Word(LeftParen, "("), Word(Identifier, column), Word(RightParen, ")")]
    case Insert(n, vals) =>
      && |ws| > 5
      && ws[..5] == [Word(Keyword, "INSERT"), Word(Keyword, "INTO"), Word(Identifier, n), Word(Keyword, "VALUES"), Word(LeftParen, "(")]
      && ValuesPhrase(ws[5..|ws| - 1], vals) && ws[|ws| - 1] == Word(RightParen, ")")
    case Select(n, filter) =>
      && |ws| >= 4 && ws[..4] == [Word(Keyword, "SELECT"), Word(Star, "*"), Word(Keyword, "FROM"), Word(Identifier, n)]
      && if filter.None? then |ws| == 4 else WherePhrase(ws[4..], filter.value)
    case Delete(n, w) =>
      && |ws| >= 3 && ws[..3] == [Word(Keyword, "DELETE"), Word(Keyword, "FROM"), Word(Identifier, n)]
      && WherePhrase(ws[3..], w)
    case Transaction(Begin) => ws == [Word(Keyword, "BEGIN")]
    case Transaction(Commit) => ws == [Word(Keyword, "COMMIT")]
    case Transaction(Rollback) => ws == [Word(Keyword, "ROLLBACK")]
  }

  // ---------- Phrases and spelled statements ----------

  /** Punctuation has its one text. */
  predicate Plain(ts: seq<Token>) {
    forall i :: 0 <= i < |ts| ==> PlainWord(ts[i].word)
  }

  predicate PlainWord(w: Word) {
    && (w.kind == Comma ==> w.value == ",") && (w.kind == LeftParen ==> w.value == "(")
    && (w.kind == RightParen ==> w.value == ")") && (w.kind == Star ==> w.value == "*")
  }

  lemma LiteralIff(ts: seq<Token>, p: nat, v: Value)
    requires p < |ts|
    ensures IsLiteral(ts, p, v) <==> Literal(ts[p].word, v)
  {
  }

  lemma WhereIff(ts: seq<Token>, p: nat, w: S.Where)
    requires p + 4 <= |ts|
    ensures SpellsWhere(ts, p, w) <==> WherePhrase(TokenWords(ts)[p..p + 4], w)
  {
    LiteralIff(ts, p + 3, w.value);
    hide Literal, IsLiteral;
  }

  lemma ValuesFirst(ts: seq<Token>, p: nat, vals: Row)
    requires |vals| > 1
    ensures SpellsValues(ts, p, vals) <==> IsLiteral(ts, p, vals[0]) && IsKind(ts, p + 1, Comma) && SpellsValues(ts, p + 2, vals[1..])
  {
    hide IsLiteral, IsKind;
    if SpellsValues(ts, p, vals) {
      assert IsLiteral(ts, p + 2 * 0, vals[0]) && IsKind(ts, p + 2 * 0 + 1, Comma);
      forall i | 0 <= i < |vals[1..]| ensures IsLiteral(ts, p + 2 + 2 * i, vals[1..][i]) {
        assert IsLiteral(ts, p + 2 * (i + 1), vals[i + 1]);
      }
      forall i | 0 <= i < |vals[1..]| - 1 ensures IsKind(ts, p + 2 + 2 * i + 1, Comma) {
        assert IsKind(ts, p + 2 * (i + 1) + 1, Comma);
      }
    }
    if IsLiteral(ts, p, vals[0]) && IsKind(ts, p + 1, Comma) && SpellsValues(ts, p + 2, vals[1..]) {
      forall i | 0 <= i < |vals| ensures IsLiteral(ts, p + 2 * i, vals[i]) {
        if i > 0 {
          assert IsLiteral(ts, p + 2 + 2 * (i - 1), vals[1..][i - 1]);
        }
      }
      forall i | 0 <= i < |vals| - 1 ensures IsKind(ts, p + 2 * i + 1, Comma) {
        if i > 0 {
          assert IsKind(ts, p + 2 + 2 * (i - 1) + 1, Comma);
        }
      }
    }
  }

  lemma {:induction false} ValuesIff(ts: seq<Token>, p: nat, vals: Row)
    requires Plain(ts) && ValuesEnd(p, |vals|) <= |ts|
    ensures SpellsValues(ts, p, vals) <==> ValuesPhrase(TokenWords(ts)[p..ValuesEnd(p, |vals|)], vals)
    decreases |vals|
  {
    hide Literal, IsLiteral, SpellsValues;
    var ws := TokenWords(ts)[p..ValuesEnd(p, |vals|)];
    if vals == [] {
      NoValues(ts, p);
    } else {
      LiteralIff(ts, p, vals[0]);
      if |vals| == 1 {
        OneValue(ts, p, vals);
      } else {
        ValuesIff(ts, p + 2, vals[1..]);
        ValuesFirst(ts, p, vals);
        assert ws[2..] == TokenWords(ts)[p + 2..ValuesEnd(p + 2, |vals[1..]|)];
        assert PlainWord(ts[p + 1].word) && ws[1] == ts[p + 1].word;
      }
    }
  }

  lemma NoValues(ts: seq<Token>, p: nat)
    ensures SpellsValues(ts, p, [])
  {
  }

  lemma OneValue(ts: seq<Token>, p: nat, vals: Row)
    requires |vals| == 1
    ensures SpellsValues(ts, p, vals) <==> IsLiteral(ts, p, vals[0])
  {
    hide IsLiteral;
    assert SpellsValues(ts, p, vals) ==> IsLiteral(ts, p + 2 * 0, vals[0]);
  }

  lemma {:induction false} ValuesLength(ws: seq<Word>, vals: Row)
    requires ValuesPhrase(ws, vals)
    ensures |ws| == ValuesEnd(0, |vals|)
    decreases |vals|
  {
    if |vals| > 1 {
      ValuesLength(ws[2..], vals[1..]);
    }
  }

  lemma ColumnsFirst(ts: seq<Token>, p: nat, cols: Schema)
    requires |cols| > 1
    ensures SpellsColumns(ts, p, cols) <==>
      SpellsColumn(ts, p, cols[0]) && IsKind(ts, p + 2, Comma) && SpellsColumns(ts, p + 3, cols[1..])
  {
    hide SpellsColumn, IsKind;
    if SpellsColumns(ts, p, cols) {
      assert SpellsColumn(ts, p + 3 * 0, cols[0]) && IsKind(ts, p + 3 * 0 + 2, Comma);
      forall i | 0 <= i < |cols[1..]| ensures SpellsColumn(ts, p + 3 + 3 * i, cols[1..][i]) {
        assert SpellsColumn(ts, p + 3 * (i + 1), cols[i + 1]);
      }
      forall i | 0 <= i < |cols[1..]| - 1 ensures IsKind(ts, p + 3 + 3 * i + 2, Comma) {
        assert IsKind(ts, p + 3 * (i + 1) + 2, Comma);
      }
    }
    if SpellsColumn(ts, p, cols[0]) && IsKind(ts, p + 2, Comma) && SpellsColumns(ts, p + 3, cols[1..]) {
      forall i | 0 <= i < |cols| ensures SpellsColumn(ts, p + 3 * i, cols[i]) {
        if i > 0 {
          assert SpellsColumn(ts, p + 3 + 3 * (i - 1), cols[1..][i - 1]);
        }
      }
      forall i | 0 <= i < |cols| - 1 ensures IsKind(ts, p + 3 * i + 2, Comma) {
        if i > 0 {
          assert IsKind(ts, p + 3 + 3 * (i - 1) + 2, Comma);
        }
      }
    }
  }

  lemma {:induction false} ColumnsIff(ts: seq<Token>, p: nat, cols: Schema)
    requires Plain(ts) && cols != [] && p + 3 * |cols| - 1 <= |ts|
    ensures SpellsColumns(ts, p, cols) <==> ColumnsPhrase(TokenWords(ts)[p..p + 3 * |cols| - 1], cols)
    decreases |cols|
  {
    hide SpellsColumns;
    var ws := TokenWords(ts)[p..p + 3 * |cols| - 1];
    assert ws[0] == ts[p].word && ws[1] == ts[p + 1].word;
    if |cols| == 1 {
      OneColumn(ts, p, cols);
    } else {
      ColumnsIff(ts, p + 3, cols[1..]);
      ColumnsFirst(ts, p, cols);
      assert ws[3..] == TokenWords(ts)[p + 3..p + 3 + 3 * |cols[1..]| - 1];
      assert PlainWord(ts[p + 2].word) && ws[2] == ts[p + 2].word;
    }
  }

  lemma OneColumn(ts: seq<Token>, p: nat, cols: Schema)
    requires |cols| == 1
    ensures SpellsColumns(ts, p, cols) <==> SpellsColumn(ts, p, cols[0])
  {
    hide SpellsColumn;
    assert SpellsColumns(ts, p, cols) ==> SpellsColumn(ts, p + 3 * 0, cols[0]);
  }

  lemma {:induction false} ColumnsLength(ws: seq<Word>, cols: Schema)
    requires ColumnsPhrase(ws, cols)
    ensures cols != [] && |ws| == 3 * |cols| - 1
    decreases |cols|
  {
    if |cols| > 1 {
      ColumnsLength(ws[3..], cols[1..]);
    }
  }

  lemma TableIff(ts: seq<Token>, q: nat, n: string, cols: Schema)
    requires Plain(ts) && q <= |ts|
    ensures SpellsBody(ts, q, S.CreateTable(n, cols)) <==> Phrase(TokenWords(ts)[..q], S.CreateTable(n, cols))
  {
    hide SpellsColumns, ColumnsPhrase;
    var ws := TokenWords(ts)[..q];
    if cols != [] && q == 3 * |cols| + 4 {
      ColumnsIff(ts, 4, cols);
      assert ws[4..|ws| - 1] == TokenWords(ts)[4..4 + 3 * |cols| - 1];
      assert ws[..4] == [ts[0].word, ts[1].word, ts[2].word, ts[3].word] && ws[|ws| - 1] == ts[q - 1].word;
      assert PlainWord(ts[3].word) && PlainWord(ts[q - 1].word);
    } else if Phrase(ws, S.CreateTable(n, cols)) {
      ColumnsLength(ws[4..|ws| - 1], cols);
    }
  }

  lemma InsertIff(ts: seq<Token>, q: nat, n: string, vals: Row)
    requires Plain(ts) && q <= |ts|
    ensures SpellsBody(ts, q, S.Insert(n, vals)) <==> Phrase(TokenWords(ts)[..q], S.Insert(n, vals))
  {
    hide SpellsValues, ValuesPhrase;
    var ws := TokenWords(ts)[..q];
    if q == ValuesEnd(5, |vals|) + 1 {
      ValuesIff(ts, 5, vals);
      assert ws[5..|ws| - 1] == TokenWords(ts)[5..ValuesEnd(5, |vals|)];
      assert ws[..5] == [ts[0].word, ts[1].word, ts[2].word, ts[3].word, ts[4].word] && ws[|ws| - 1] == ts[q - 1].word;
      assert PlainWord(ts[4].word) && PlainWord(ts[q - 1].word);
    } else if Phrase(ws, S.Insert(n, vals)) {
      ValuesLength(ws[5..|ws| - 1], vals);
    }
  }

  lemma IndexIff(ts: seq<Token>, q: nat, name: string, n: string, column: string)
    requires Plain(ts) && q <= |ts|
    ensures SpellsBody(ts, q, S.CreateIndex(name, n, column)) <==> Phrase(TokenWords(ts)[..q], S.CreateIndex(name, n, column))
  {
    if q == 8 {
      assert TokenWords(ts)[..q] == [ts[0].word, ts[1].word, ts[2].word, ts[3].word, ts[4].word, ts[5].word, ts[6].word, ts[7].word];
      assert PlainWord(ts[5].word) && PlainWord(ts[7].word);
    }
  }

  lemma SelectIff(ts: seq<Token>, q: nat, n: string, filter: Option<S.Where>)
    requires Plain(ts) && q <= |ts|
    ensures SpellsBody(ts, q, S.Select(n, filter)) <==> Phrase(TokenWords(ts)[..q], S.Select(n, filter))
  {
    hide SpellsWhere;
    var ws := TokenWords(ts)[..q];
    if q >= 4 {
      assert ws[..4] == [ts[0].word, ts[1].word, ts[2].word, ts[3].word] && PlainWord(ts[1].word);
    }
    if filter.Some? && q == 8 {
      WhereIff(ts, 4, filter.value);
      assert ws[4..] == TokenWords(ts)[4..8];
    }
  }

  lemma DeleteIff(ts: seq<Token>, q: nat, n: string, w: S.Where)
    requires q <= |ts|
    ensures SpellsBody(ts, q, S.Delete(n, w)) <==> Phrase(TokenWords(ts)[..q], S.Delete(n, w))
  {
    hide SpellsWhere;
    var ws := TokenWords(ts)[..q];
    if q == 7 {
      WhereIff(ts, 3, w);
      assert ws[..3] == [ts[0].word, ts[1].word, ts[2].word] && ws[3..] == TokenWords(ts)[3..7];
    }
  }

  /** The tokens before `q` spell a statement if and only if they are a phrase for it. */
  lemma BodyIff(ts: seq<Token>, q: nat, s: S.Statement)
    requires Plain(ts) && q <= |ts|
    ensures SpellsBody(ts, q, s) <==> Phrase(TokenWords(ts)[..q], s)
  {
    hide SpellsColumns, SpellsValues, SpellsWhere, ColumnsPhrase, ValuesPhrase, WherePhrase, Plain;
    match s
    case CreateTable(n, cols) => TableIff(ts, q, n, cols);
    case CreateIndex(name, n, column) => IndexIff(ts, q, name, n, column);
    case Insert(n, vals) => InsertIff(ts, q, n, vals);
    case Select(n, filter) => SelectIff(ts, q, n, filter);
    case Delete(n, w) => DeleteIff(ts, q, n, w);
    case Transaction(_) =>
      assert q == 1 ==> TokenWords(ts)[..q] == [ts[0].word];
  }

  // ---------- Texts ----------

  /** The text is a phrase for the statement, written with any white space, keywords in any case, and at most one semicolon
      at the end. */
  ghost predicate Denotes(sql: string, s: S.Statement) {
    exists items, end, ws, semicolon: bool :: Writing(sql, s, items, end, ws, semicolon)
  }

  ghost predicate Writing(sql: string, s: S.Statement, items: seq<Written>, end: string, ws: seq<Word>, semicolon: bool) {
    && WellWritten(items, end) && WrittenText(items, end) == sql
    && WrittenWords(items) == ws + (if semicolon then [Word(Semicolon, ";")] else []) && Phrase(ws, s)
  }

  lemma {:induction false} WrittenPlain(items: seq<Written>, end: string, i: nat)
    requires WellWritten(items, end) && i < |items|
    ensures PlainWord(items[i].word) && items[i].word.kind != Eof && (items[i].word.kind == Semicolon ==> items[i].word.value == ";")
    decreases |items|
  {
    if i > 0 {
      WrittenPlain(items[1..], end, i - 1);
    }
  }

  /** The tokens of a text are those it is written with, and the end. */
  lemma TokensWritten(ts: seq<Token>, items: seq<Written>, end: string)
    requires WellWritten(items, end) && TokenWords(ts) == WrittenWords(items) + [Word(Eof, "")]
    ensures |ts| == |items| + 1 && Plain(ts)
    ensures forall i :: 0 <= i < |items| ==> ts[i].word == items[i].word
    ensures forall i :: 0 <= i < |ts| ==> (ts[i].word.kind == Eof <==> i == |items|)
    ensures forall i :: 0 <= i < |ts| ==> (ts[i].word.kind == Semicolon ==> ts[i].word == Word(Semicolon, ";"))
  {
    hide WellWritten;
    var ws := TokenWords(ts);
    forall i | 0 <= i < |items| ensures ts[i].word == items[i].word {
      assert ws[i] == ts[i].word;
    }
    assert ws[|items|] == ts[|items|].word;
    forall i | 0 <= i < |items|
      ensures PlainWord(ts[i].word) && ts[i].word.kind != Eof && (ts[i].word.kind == Semicolon ==> ts[i].word.value == ";")
    {
      WrittenPlain(items, end, i);
    }
  }

  lemma SpelledDenotes(ts: seq<Token>, s: S.Statement, items: seq<Written>, end: string, sql: string)
    requires WellWritten(items, end) && WrittenText(items, end) == sql && TokenWords(ts) == WrittenWords(items) + [Word(Eof, "")]
    requires Spells(ts, s)
    ensures Denotes(sql, s)
  {
    hide *;
    TokensWritten(ts, items, end);
    var q := SpelledUpTo(ts, s);
    BodyIff(ts, q, s);
    EndingIff(ts, WrittenWords(items), q, ts[q].word.kind == Semicolon);
    WritingMeans(sql, s, items, end, TokenWords(ts)[..q], ts[q].word.kind == Semicolon);
  }

  lemma SpelledUpTo(ts: seq<Token>, s: S.Statement) returns (q: nat)
    requires Spells(ts, s)
    ensures q < |ts| && SpellsBody(ts, q, s) && Ends(ts, q) && (ts[q].word.kind != Semicolon ==> ts[q].word.kind == Eof)
  {
    q :| 0 <= q < |ts| && SpellsBody(ts, q, s) && Ends(ts, q);
  }

  lemma WritingMeans(sql: string, s: S.Statement, items: seq<Written>, end: string, ws: seq<Word>, semicolon: bool)
    requires WellWritten(items, end) && WrittenText(items, end) == sql && Phrase(ws, s)
    requires WrittenWords(items) == ws + (if semicolon then [Word(Semicolon, ";")] else [])
    ensures Denotes(sql, s)
  {
    assert Writing(sql, s, items, end, ws, semicolon);
  }

  /** Where the statement ends, only the semicolon is left of the words. */
  lemma EndingIff(ts: seq<Token>, ws: seq<Word>, q: nat, semicolon: bool)
    requires TokenWords(ts) == ws + [Word(Eof, "")] && q < |ts| && semicolon == (ts[q].word.kind == Semicolon)
    requires forall i :: 0 <= i < |ts| ==> (ts[i].word.kind == Eof <==> i == |ws|)
    requires forall i :: 0 <= i < |ts| ==> (ts[i].word.kind == Semicolon ==> ts[i].word == Word(Semicolon, ";"))
    ensures Ends(ts, q) <==> ws == TokenWords(ts)[..q] + (if semicolon then [Word(Semicolon, ";")] else [])
  {
    var all := TokenWords(ts);
    assert all[q] == ts[q].word && ws == all[..|ws|];
    if semicolon {
      assert all[..q + 1] == all[..q] + [Word(Semicolon, ";")];
    } else {
      assert all[..q] + [] == all[..q];
    }
  }

  lemma DenotedSpells(ts: seq<Token>, s: S.Statement, items: seq<Written>, end: string, sql: string, ws: seq<Word>, semicolon: bool)
    requires Writing(sql, s, items, end, ws, semicolon) && TokenWords(ts) == WrittenWords(items) + [Word(Eof, "")]
    ensures Spells(ts, s)
  {
    hide *;
    var q := |ws|;
    WritingHas(sql, s, items, end, ws, semicolon);
    TokensWritten(ts, items, end);
    FrontWords(ts, ws, semicolon);
    BodyIff(ts, q, s);
    EndingIff(ts, WrittenWords(items), q, semicolon);
    SpellsMeans(ts, q, s);
  }

  lemma WritingHas(sql: string, s: S.Statement, items: seq<Written>, end: string, ws: seq<Word>, semicolon: bool)
    requires Writing(sql, s, items, end, ws, semicolon)
    ensures WellWritten(items, end) && Phrase(ws, s)
    ensures WrittenWords(items) == ws + (if semicolon then [Word(Semicolon, ";")] else [])
  {
  }

  lemma FrontWords(ts: seq<Token>, ws: seq<Word>, semicolon: bool)
    requires TokenWords(ts) == ws + (if semicolon then [Word(Semicolon, ";")] else []) + [Word(Eof, "")]
    ensures |ws| < |ts| && TokenWords(ts)[..|ws|] == ws && (ts[|ws|].word.kind == Semicolon <==> semicolon)
  {
    var all := TokenWords(ts);
    assert all[|ws|] == ts[|ws|].word;
    assert all[..|ws|] == ws;
  }

  /** A text is parsed as a statement if and only if it is a phrase for it, written in one of the possible ways. */
  lemma ParsedIff(sql: string, s: S.Statement)
    ensures TextSpells(sql, s) <==> Denotes(sql, s)
  {
    hide *;
    SpellsTokens(sql, s);
    if TextSpells(sql, s) {
      var items, end := LexWritten(sql, 0);
      SpelledDenotes(Lex(sql, 0).value, s, items, end, sql);
    }
    if Denotes(sql, s) {
      var items, end, ws, semicolon := Denoted(sql, s);
      LexIff(sql, 0, WrittenWords(items));
      DenotedSpells(Lex(sql, 0).value, s, items, end, sql, ws, semicolon);
    }
  }

  lemma SpellsTokens(sql: string, s: S.Statement)
    ensures TextSpells(sql, s) <==> Lex(sql, 0).Parsed? && Spells(Lex(sql, 0).value, s)
  {
  }

  lemma Denoted(sql: string, s: S.Statement) returns (items: seq<Written>, end: string, ws: seq<Word>, semicolon: bool)
    requires Denotes(sql, s)
    ensures Writing(sql, s, items, end, ws, semicolon) && WellWritten(items, end) && WrittenText(items, end) == sql
  {
    items, end, ws, semicolon :| Writing(sql, s, items, end, ws, semicolon);
  }

  // ---------- Transaction commands as texts ----------

  /** A single keyword, in any case and with white space around it, with or without a semicolon behind it. */
  lemma KeywordPhrase(before: string, raw: string, between: string, after: string, semicolon: bool, keyword: string, s: S.Statement)
    requires AllSpace(before) && AllSpace(between) && AllSpace(after) && keyword in KEYWORDS && Upper(raw) == keyword
    requires Phrase([Word(Keyword, keyword)], s)
    ensures TextSpells(before + raw + between + (if semicolon then ";" + after else ""), s)
  {
    hide Phrase, TextSpells;
    var w, tail := Word(Keyword, keyword), Word(Semicolon, ";");
    var text := before + raw + between + (if semicolon then ";" + after else "");
    var items := [Written(before, raw, w)] + if semicolon then [Written(between, ";", tail)] else [];
    var end := if semicolon then after else between;
    var rest := items[1..];
    assert rest == if semicolon then [Written(between, ";", tail)] else [];
    if semicolon {
      assert rest[1..] == [];
      assert WrittenText(rest, end) == between + ";" + end;
    }
    assert WellWritten(rest, end);
    assert WrittenText(items, end) == before + raw + WrittenText(rest, end);
    assert WrittenText(items, end) == text;
    assert Loose(w, WrittenText(rest, end)) by {
      assert forall c :: IsSpace(c) ==> !InWord(c);
    }
    assert WellWritten(items, end);
    assert WrittenWords(items) == [w] + (if semicolon then [tail] else []);
    assert Writing(text, s, items, end, [w], semicolon);
    ParsedIff(text, s);
  }

  /** "BEGIN", "COMMIT" and "ROLLBACK" open, commit and undo a transaction; in small letters too. */
  lemma CommandTexts(before: string, between: string, after: string, semicolon: bool)
    requires AllSpace(before) && AllSpace(between) && AllSpace(after)
    ensures var end := between + (if semicolon then ";" + after else "");
      && TextSpells(before + "BEGIN" + end, S.Transaction(S.Begin)) && TextSpells(before + "begin" + end, S.Transaction(S.Begin))
      && TextSpells(before + "COMMIT" + end, S.Transaction(S.Commit)) && TextSpells(before + "commit" + end, S.Transaction(S.Commit))
      && TextSpells(before + "ROLLBACK" + end, S.Transaction(S.Rollback)) && TextSpells(before + "rollback" + end, S.Transaction(S.Rollback))
  {
    hide TextSpells;
    UpperCommands();
    var end := between + (if semicolon then ";" + after else "");
    KeywordText(before, "BEGIN", between, after, semicolon, "BEGIN", S.Transaction(S.Begin));
    KeywordText(before, "begin", between, after, semicolon, "BEGIN", S.Transaction(S.Begin));
    KeywordText(before, "COMMIT", between, after, semicolon, "COMMIT", S.Transaction(S.Commit));
    KeywordText(before, "commit", between, after, semicolon, "COMMIT", S.Transaction(S.Commit));
    KeywordText(before, "ROLLBACK", between, after, semicolon, "ROLLBACK", S.Transaction(S.Rollback));
    KeywordText(before, "rollback", between, after, semicolon, "ROLLBACK", S.Transaction(S.Rollback));
  }

  lemma KeywordText(before: string, raw: string, between: string, after: string, semicolon: bool, keyword: string, s: S.Statement)
    requires AllSpace(before) && AllSpace(between) && AllSpace(after) && keyword in KEYWORDS && Upper(raw) == keyword
    requires Phrase([Word(Keyword, keyword)], s)
    ensures TextSpells(before + raw + (between + (if semicolon then ";" + after else "")), s)
  {
    hide Phrase, TextSpells;
    KeywordPhrase(before, raw, between, after, semicolon, keyword, s);
    var last := if semicolon then ";" + after else "";
    assert before + raw + (between + last) == before + raw + between + last;
  }

  lemma UpperCommands()
    ensures Upper("BEGIN") == Upper("begin") == "BEGIN" && Upper("COMMIT") == Upper("commit") == "COMMIT"
    ensures Upper("ROLLBACK") == Upper("rollback") == "ROLLBACK"
  {
  }
}
