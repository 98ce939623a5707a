/** Breaking SQL text into tokens. Letters, digits and white space are those of ASCII. */
module Lexer {
  import opened Decimals

  datatype Kind = Identifier | Integer | Str | Keyword | Operator | Comma | LeftParen | RightParen | Semicolon | Star | Eof

  /** A token without its place in the text. */
  datatype Word = Word(kind: Kind, value: string)

  datatype Token = Token(word: Word, position: nat)

  datatype Parsed<+T> = Parsed(value: T) | SyntaxError(at: nat)

  const KEYWORDS: set<string> := {
    "BEGIN", "COMMIT", "CREATE", "DELETE",
    "FROM", "INDEX", "INSERT", "INT",
    "INTO", "ON", "ROLLBACK", "SELECT",
    "TABLE", "TEXT", "VALUES", "WHERE"
  }

  // ---------- Characters ----------

  predicate IsSpace(c: char) {
    c == ' ' || 9 as char <= c <= 13 as char || 28 as char <= c <= 31 as char
  }

  predicate IsAlpha(c: char) {
    'a' <= c <= 'z' || 'A' <= c <= 'Z'
  }

  predicate StartsWord(c: char) {
    IsAlpha(c) || c == '_'
  }

  predicate InWord(c: char) {
    IsAlpha(c) || IsDigit(c) || c == '_'
  }

  function UpperChar(c: char): char {
    if 'a' <= c <= 'z' then (c as int - 32) as char else c
  }

  function Upper(s: string): (r: string)
    ensures |r| == |s|
  {
    seq(|s|, i requires 0 <= i < |s| => UpperChar(s[i]))
  }

  /** The classes of characters, by code point. */
  lemma CharactersAre(c: char)
    ensures var n := c as int;
      && (IsSpace(c) <==> n == 32 || 9 <= n <= 13 || 28 <= n <= 31)
      && (StartsWord(c) <==> 65 <= n <= 90 || 97 <= n <= 122 || n == 95)
      && (InWord(c) <==> 65 <= n <= 90 || 97 <= n <= 122 || n == 95 || 48 <= n <= 57)
      && (IsDigit(c) <==> 48 <= n <= 57)
      && UpperChar(c) as int == if 97 <= n <= 122 then n - 32 else n
  {
  }

  /** A word is a keyword exactly if it is one of sixteen words in any mixture of cases; all other words are names, kept as they
      are written. */
  lemma KeywordIff(raw: string)
    ensures WordOf(raw) == if WordOf(raw).kind == Keyword then Word(Keyword, Upper(raw)) else Word(Identifier, raw)
    ensures WordOf(raw).kind == Keyword <==>
      (var u := Upper(raw);
       || u == "BEGIN" || u == "COMMIT" || u == "CREATE" || u == "DELETE" || u == "FROM" || u == "INDEX" || u == "INSERT"
       || u == "INT" || u == "INTO" || u == "ON" || u == "ROLLBACK" || u == "SELECT" || u == "TABLE" || u == "TEXT"
       || u == "VALUES" || u == "WHERE")
    ensures |Upper(raw)| == |raw| && forall i :: 0 <= i < |raw| ==>
      Upper(raw)[i] as int == if 97 <= raw[i] as int <= 122 then raw[i] as int - 32 else raw[i] as int
    ensures WordOf("select") == Word(Keyword, "SELECT") && WordOf("Select") == Word(Keyword, "SELECT")
    ensures WordOf("selects") == Word(Identifier, "selects")
  {
    assert Upper("select") == "SELECT" && Upper("Select") == "SELECT";
    assert Upper("selects")[6] == 'S';
  }

  // ---------- The first token of a text ----------

  /** The number of characters at the front that satisfy `p`. */
  function Span(s: string, p: char -> bool): (n: nat)
    ensures n <= |s| && forall i :: 0 <= i < n ==> p(s[i])
    ensures n < |s| ==> !p(s[n])
  {
    if s == [] || !p(s[0]) then 0 else 1 + Span(s[1..], p)
  }

  lemma SpanIs(s: string, p: char -> bool, n: nat)
    requires n <= |s| && (forall i :: 0 <= i < n ==> p(s[i])) && (n < |s| ==> !p(s[n]))
    ensures Span(s, p) == n
  {
    var m := Span(s, p);
  }

  function WordOf(raw: string): Word {
    var upper := Upper(raw);
    if upper in KEYWORDS then Word(Keyword, upper) else Word(Identifier, raw)
  }

  /** The text of a string literal from behind its opening quote, and the number of characters up to its end. */
  function StringBody(s: string): Parsed<(string, nat)> {
    if s == [] then SyntaxError(0)
    else if s[0] != '\'' then
      match StringBody(s[1..])
      case SyntaxError(at) => SyntaxError(at)
      case Parsed((chars, n)) => Parsed(([s[0]] + chars, n + 1))
    else if |s| > 1 && s[1] == '\'' then
      match StringBody(s[2..])
      case SyntaxError(at) => SyntaxError(at)
      case Parsed((chars, n)) => Parsed((['\''] + chars, n + 2))
    else Parsed(([], 1))
  }

  predicate StartsOperator(c: char) {
    c == '=' || c == '!' || c == '<' || c == '>'
  }

  function OperatorAt(s: string): Parsed<(Word, nat)>
    requires s != []
  {
    if |s| > 1 && s[1] == '=' && (s[0] == '!' || s[0] == '<' || s[0] == '>') then Parsed((Word(Operator, s[..2]), 2))
    else if s[0] == '=' || s[0] == '<' || s[0] == '>' then Parsed((Word(Operator, s[..1]), 1))
    else SyntaxError(0)
  }

  function Punctuation(c: char): Kind {
    if c == ',' then Comma else if c == '(' then LeftParen else if c == ')' then RightParen
    else if c == ';' then Semicolon else if c == '*' then Star else Eof
  }

  predicate StartsNumber(s: string)
    requires s != []
  {
    IsDigit(s[0]) || (s[0] == '-' && |s| > 1 && IsDigit(s[1]))
  }

  /** The first token and its length; the text does not start with white space. */
  function FirstToken(s: string): Parsed<(Word, nat)>
    requires s != [] && !IsSpace(s[0])
  {
    var c := s[0];
    if StartsWord(c) then
      var n := 1 + Span(s[1..], InWord);
      Parsed((WordOf(s[..n]), n))
    else if StartsNumber(s) then
      var n := 1 + Span(s[1..], IsDigit);
      Parsed((Word(Integer, s[..n]), n))
    else if c == '\'' then
      match StringBody(s[1..])
      case SyntaxError(at) => SyntaxError(0)
      case Parsed((chars, n)) => Parsed((Word(Str, chars), n + 1))
    else if Punctuation(c) != Eof then Parsed((Word(Punctuation(c), [c]), 1))
    else if StartsOperator(c) then OperatorAt(s)
    else SyntaxError(0)
  }

  lemma {:induction false} StringBodyLength(s: string)
    ensures StringBody(s).Parsed? ==> 1 <= StringBody(s).value.1 <= |s|
  {
    if s != [] {
      StringBodyLength(s[1..]);
      if |s| > 1 {
        StringBodyLength(s[2..]);
      }
    }
  }

  lemma FirstTokenLength(s: string)
    requires s != [] && !IsSpace(s[0])
    ensures FirstToken(s).Parsed? ==> 1 <= FirstToken(s).value.1 <= |s|
  {
    StringBodyLength(s[1..]);
  }

  /** Which token a text starts with, by its first characters. */
  lemma FirstTokenIs(s: string)
    requires s != [] && !IsSpace(s[0])
    ensures s[0] == ',' ==> FirstToken(s) == Parsed((Word(Comma, ","), 1))
    ensures s[0] == '(' ==> FirstToken(s) == Parsed((Word(LeftParen, "("), 1))
    ensures s[0] == ')' ==> FirstToken(s) == Parsed((Word(RightParen, ")"), 1))
    ensures s[0] == ';' ==> FirstToken(s) == Parsed((Word(Semicolon, ";"), 1))
    ensures s[0] == '*' ==> FirstToken(s) == Parsed((Word(Star, "*"), 1))
    ensures s[0] == '=' ==> FirstToken(s) == Parsed((Word(Operator, "="), 1))
    ensures s[0] == '<' ==> FirstToken(s) == if |s| > 1 && s[1] == '=' then Parsed((Word(Operator, "<="), 2)) else Parsed((Word(Operator, "<"), 1))
    ensures s[0] == '>' ==> FirstToken(s) == if |s| > 1 && s[1] == '=' then Parsed((Word(Operator, ">="), 2)) else Parsed((Word(Operator, ">"), 1))
    ensures s[0] == '!' ==> FirstToken(s) == if |s| > 1 && s[1] == '=' then Parsed((Word(Operator, "!="), 2)) else SyntaxError(0)
    ensures s[0] == '-' && !(|s| > 1 && '0' <= s[1] <= '9') ==> FirstToken(s).SyntaxError?
    ensures s[0] == '.' || s[0] == '+' || s[0] == '/' || s[0] == '"' ==> FirstToken(s).SyntaxError?
  {
    hide Span, StringBody;
    assert s[..1] == [s[0]] && (|s| > 1 ==> s[..2] == [s[0], s[1]]);
  }

  // ---------- All tokens of a text ----------

  /** The tokens of `s`, a text that starts at `position`. */
  function Lex(s: string, position: nat): Parsed<seq<Token>>
    decreases |s|
  {
    if s == [] then Parsed([Token(Word(Eof, ""), position)])
    else if IsSpace(s[0]) then Lex(s[1..], position + 1)
    else match FirstToken(s)
      case SyntaxError(at) => SyntaxError(position)
      case Parsed((word, n)) =>
        FirstTokenLength(s);
        match Lex(s[n..], position + n)
        case SyntaxError(at) => SyntaxError(at)
        case Parsed(rest) => Parsed([Token(word, position)] + rest)
  }

  /** `tokens` followed by the tokens of the rest. */
  function Prepend(tokens: seq<Token>, rest: Parsed<seq<Token>>): Parsed<seq<Token>> {
    match rest
    case SyntaxError(at) => SyntaxError(at)
    case Parsed(more) => Parsed(tokens + more)
  }

  lemma LexStarts(sql: string)
    ensures Lex(sql, 0) == Prepend([], Lex(sql[0..], 0))
  {
    hide Lex;
    assert sql[0..] == sql;
    var rest := Lex(sql, 0);
    if rest.Parsed? {
      assert [] + rest.value == rest.value;
    }
  }

  lemma LexEnds(sql: string, tokens: seq<Token>)
    ensures Prepend(tokens, Lex(sql[|sql|..], |sql|)) == Parsed(tokens + [Token(Word(Eof, ""), |sql|)])
  {
    hide Lex;
    assert sql[|sql|..] == [];
    LexNothing(|sql|);
  }

  lemma LexNothing(position: nat)
    ensures Lex([], position) == Parsed([Token(Word(Eof, ""), position)])
  {
  }

  lemma PrependError(tokens: seq<Token>, at: nat)
    ensures Prepend(tokens, SyntaxError(at)) == SyntaxError(at)
  {
  }

  /** What the next character means for the tokens of the rest. */
  lemma LexStep(sql: string, index: nat)
    requires index < |sql|
    ensures IsSpace(sql[index]) ==> Lex(sql[index..], index) == Lex(sql[index + 1..], index + 1)
    ensures !IsSpace(sql[index]) ==> |sql[index..]| > 0 && !IsSpace(sql[index..][0])
    ensures !IsSpace(sql[index]) && FirstToken(sql[index..]).SyntaxError? ==> Lex(sql[index..], index) == SyntaxError(index)
    ensures !IsSpace(sql[index]) && FirstToken(sql[index..]).Parsed? ==>
      var (word, n) := FirstToken(sql[index..]).value;
      && 1 <= n <= |sql| - index
      && Lex(sql[index..], index) == Prepend([Token(word, index)], Lex(sql[index + n..], index + n))
  {
    hide FirstToken;
    var s := sql[index..];
    assert s[1..] == sql[index + 1..];
    if !IsSpace(s[0]) {
      FirstTokenLength(s);
      if FirstToken(s).Parsed? {
        assert s[FirstToken(s).value.1..] == sql[index + FirstToken(s).value.1..];
      }
    }
  }

  lemma PrependOne(tokens: seq<Token>, t: Token, rest: Parsed<seq<Token>>)
    ensures Prepend(tokens, Prepend([t], rest)) == Prepend(tokens + [t], rest)
  {
    if rest.Parsed? {
      assert tokens + ([t] + rest.value) == tokens + [t] + rest.value;
    }
  }

  /** Turns SQL text into tokens. */
  method Tokenize(sql: string) returns (r: Parsed<seq<Token>>)
    ensures r == Lex(sql, 0)
  {
    hide *;
    var tokens: seq<Token> := [];
    var index: nat := 0;
    LexStarts(sql);
    while index < |sql|
      invariant index <= |sql| && Lex(sql, 0) == Prepend(tokens, Lex(sql[index..], index))
      decreases |sql| - index
    {
      LexStep(sql, index);
      var c := sql[index];
      if IsSpace(c) {
        index := index + 1;
      } else {
        var next := ReadToken(sql, index);
        if next.SyntaxError? {
          PrependError(tokens, index);
          return SyntaxError(index);
        }
        var (word, n) := next.value;
        PrependOne(tokens, Token(word, index), Lex(sql[index + n..], index + n));
        tokens := tokens + [Token(word, index)];
        index := index + n;
      }
    }
    LexEnds(sql, tokens);
    return Parsed(tokens + [Token(Word(Eof, ""), |sql|)]);
  }

  /** Reads one token; the loops run over the characters that belong to it. */
  method ReadToken(sql: string, start: nat) returns (r: Parsed<(Word, nat)>)
    requires start < |sql| && !IsSpace(sql[start])
    ensures r == FirstToken(sql[start..])
  {
    hide StringBody, Span;
    var c := sql[start];
    if StartsWord(c) {
      r := ReadWord(sql, start);
    } else if IsDigit(c) || (c == '-' && start + 1 < |sql| && IsDigit(sql[start + 1])) {
      r := ReadNumber(sql, start);
    } else if c == '\'' {
      r := ReadString(sql, start);
    } else if Punctuation(c) != Eof {
      r := Parsed((Word(Punctuation(c), [c]), 1));
    } else if StartsOperator(c) {
      r := OperatorAt(sql[start..]);
    } else {
      r := SyntaxError(0);
    }
  }

  method ReadWord(sql: string, start: nat) returns (r: Parsed<(Word, nat)>)
    requires start < |sql| && StartsWord(sql[start])
    ensures r == var n := 1 + Span(sql[start..][1..], InWord); Parsed((WordOf(sql[start..][..n]), n))
  {
    var index := start + 1;
    while index < |sql| && InWord(sql[index])
      invariant start < index <= |sql| && forall i :: start < i < index ==> InWord(sql[i])
    {
      index := index + 1;
    }
    SpanIs(sql[start..][1..], InWord, index - start - 1);
    assert sql[start..][..index - start] == sql[start..index];
    return Parsed((WordOf(sql[start..index]), index - start));
  }

  method ReadNumber(sql: string, start: nat) returns (r: Parsed<(Word, nat)>)
    requires start < |sql|
    ensures r == var n := 1 + Span(sql[start..][1..], IsDigit); Parsed((Word(Integer, sql[start..][..n]), n))
  {
    var index := start + 1;
    while index < |sql| && IsDigit(sql[index])
      invariant start < index <= |sql| && forall i :: start < i < index ==> IsDigit(sql[i])
    {
      index := index + 1;
    }
    SpanIs(sql[start..][1..], IsDigit, index - start - 1);
    assert sql[start..][..index - start] == sql[start..index];
    return Parsed((Word(Integer, sql[start..index]), index - start));
  }

  /** Reads a string literal; two quotes in a row stand for one. */
  method ReadString(sql: string, start: nat) returns (r: Parsed<(Word, nat)>)
    requires start < |sql| && sql[start] == '\''
    ensures r == match StringBody(sql[start..][1..])
                 case SyntaxError(at) => SyntaxError(0)
                 case Parsed((chars, n)) => Parsed((Word(Str, chars), n + 1))
  {
    hide *;
    ghost var body := sql[start..][1..];
    var index := start + 1;
    var chars: string := [];
    assert body == sql[index..];
    ContinuedNone(StringBody(body));
    while index < |sql|
      invariant start < index <= |sql|
      invariant StringBody(body) == Continued(chars, index - start - 1, StringBody(sql[index..]))
    {
      BodyAt(sql, index);
      var c := sql[index];
      if c == '\'' {
        if index + 1 < |sql| && sql[index + 1] == '\'' {
          ContinuedOne(chars, '\'', index - start - 1, 2, StringBody(sql[index + 2..]));
          chars := chars + ['\''];
          index := index + 2;
        } else {
          BodyCloses(chars, index - start - 1);
          return Parsed((Word(Str, chars), index + 1 - start));
        }
      } else {
        ContinuedOne(chars, c, index - start - 1, 1, StringBody(sql[index + 1..]));
        chars := chars + [c];
        index := index + 1;
      }
    }
    BodyOpen(sql, chars, index - start - 1);
    return SyntaxError(0);
  }

  /** What the next character means for the rest of a literal. */
  lemma BodyAt(sql: string, index: nat)
    requires index < |sql|
    ensures sql[index] != '\'' ==> StringBody(sql[index..]) == Continued([sql[index]], 1, StringBody(sql[index + 1..]))
    ensures sql[index] == '\'' && index + 1 < |sql| && sql[index + 1] == '\'' ==>
      StringBody(sql[index..]) == Continued(['\''], 2, StringBody(sql[index + 2..]))
    ensures sql[index] == '\'' && !(index + 1 < |sql| && sql[index + 1] == '\'') ==> StringBody(sql[index..]) == Parsed(([], 1))
  {
    var s := sql[index..];
    assert s[1..] == sql[index + 1..];
    assert index + 1 < |sql| ==> s[2..] == sql[index + 2..];
  }

  lemma BodyCloses(chars: string, n: nat)
    ensures Continued(chars, n, Parsed(([], 1))) == Parsed((chars, n + 1))
  {
    assert chars + [] == chars;
  }

  lemma BodyOpen(sql: string, chars: string, n: nat)
    ensures Continued(chars, n, StringBody(sql[|sql|..])).SyntaxError?
  {
    assert sql[|sql|..] == [];
  }

  /** The rest of a literal whose first `n` characters gave `chars`. */
  function Continued(chars: string, n: nat, rest: Parsed<(string, nat)>): Parsed<(string, nat)> {
    match rest
    case SyntaxError(at) => SyntaxError(at)
    case Parsed((more, m)) => Parsed((chars + more, n + m))
  }

  lemma ContinuedNone(rest: Parsed<(string, nat)>)
    ensures Continued([], 0, rest) == rest
  {
    if rest.Parsed? {
      assert [] + rest.value.0 == rest.value.0;
    }
  }

  lemma ContinuedOne(chars: string, c: char, n: nat, k: nat, rest: Parsed<(string, nat)>)
    ensures Continued(chars, n, Continued([c], k, rest)) == Continued(chars + [c], n + k, rest)
  {
    if rest.Parsed? {
      assert chars + ([c] + rest.value.0) == chars + [c] + rest.value.0;
    }
  }

  // ---------- Writing tokens ----------

  predicate IsName(s: string) {
    s != [] && StartsWord(s[0]) && (forall i :: 0 <= i < |s| ==> InWord(s[i])) && Upper(s) !in KEYWORDS
  }

  predicate IsOperator(s: string) {
    s == "=" || s == "!=" || s == "<" || s == "<=" || s == ">" || s == ">="
  }

  /** A token that some text can spell. */
  predicate Spellable(w: Word) {
    match w.kind
    case Identifier => IsName(w.value)
    case Keyword => w.value in KEYWORDS
    case Integer => IsNumeral(w.value)
    case Str => true
    case Operator => IsOperator(w.value)
    case Comma => w.value == ","
    case LeftParen => w.value == "("
    case RightParen => w.value == ")"
    case Semicolon => w.value == ";"
    case Star => w.value == "*"
    case Eof => false
  }

  /** Quotes are doubled inside a literal. */
  function Quoted(s: string): string {
    if s == [] then [] else QuotedChar(s[0]) + Quoted(s[1..])
  }

  function Spelling(w: Word): string {
    if w.kind == Str then "'" + Quoted(w.value) + "'" else w.value
  }

  /** The character `c` right behind the token would be taken for a part of it. */
  predicate Sticks(w: Word, c: char) {
    match w.kind
    case Identifier => InWord(c)
    case Keyword => InWord(c)
    case Integer => IsDigit(c)
    case Str => c == '\''
    case Operator => c == '=' && (w.value == "<" || w.value == ">")
    case _ => false
  }

  predicate Loose(w: Word, rest: string) {
    rest == [] || !Sticks(w, rest[0])
  }

  lemma {:induction false} QuotedRead(s: string, rest: string)
    requires rest == [] || rest[0] != '\''
    ensures StringBody(Quoted(s) + ("'" + rest)) == Parsed((s, |Quoted(s)| + 1))
  {
    if s == [] {
      assert Quoted(s) + ("'" + rest) == "'" + rest;
    } else {
      QuotedRead(s[1..], rest);
      assert s == [s[0]] + s[1..];
      hide Quoted;
      QuotedOne(s);
      BodyStep(s[0], Quoted(s[1..]) + ("'" + rest));
      Reassociate(QuotedChar(s[0]), Quoted(s[1..]), "'" + rest);
    }
  }

  /** A single quote is written twice, every other character as it is. */
  lemma {:induction false} QuotesDoubled(a: string, b: string, c: char)
    ensures Quoted("") == "" && Quoted("'") == "''" && (c != '\'' ==> Quoted([c]) == [c])
    ensures Quoted(a + b) == Quoted(a) + Quoted(b)
  {
    if a == [] {
      assert a + b == b;
    } else {
      assert (a + b)[1..] == a[1..] + b;
      QuotesDoubled(a[1..], b, c);
    }
  }

  function QuotedChar(c: char): string {
    if c == '\'' then "''" else [c]
  }

  lemma QuotedOne(s: string)
    requires s != []
    ensures Quoted(s) == QuotedChar(s[0]) + Quoted(s[1..])
  {
  }

  lemma Reassociate(a: string, b: string, c: string)
    ensures (a + b) + c == a + (b + c)
  {
  }

  lemma BodyStep(c: char, tail: string)
    ensures StringBody(QuotedChar(c) + tail) == Continued([c], |QuotedChar(c)|, StringBody(tail))
  {
    var s := QuotedChar(c) + tail;
    if c == '\'' {
      assert s[2..] == tail;
      BodyAt(s, 0);
      assert s[0..] == s;
    } else {
      assert s[1..] == tail;
      BodyAt(s, 0);
      assert s[0..] == s;
    }
  }

  lemma KeywordShape(w: string)
    requires w in KEYWORDS
    ensures w != [] && StartsWord(w[0]) && (forall i :: 0 <= i < |w| ==> InWord(w[i])) && Upper(w) == w
  {
    assert forall i :: 0 <= i < |w| ==> 'A' <= w[i] <= 'Z';
  }

  lemma WordRead(raw: string, rest: string)
    requires raw != [] && StartsWord(raw[0]) && forall i :: 0 <= i < |raw| ==> InWord(raw[i])
    requires rest == [] || !InWord(rest[0])
    ensures FirstToken(raw + rest) == Parsed((WordOf(raw), |raw|))
  {
    var s := raw + rest;
    SpanIs(s[1..], InWord, |raw| - 1);
    assert s[..|raw|] == raw;
  }

  lemma NumberRead(raw: string, rest: string)
    requires IsNumeral(raw) && (rest == [] || !IsDigit(rest[0]))
    ensures raw[0] == '-' || IsDigit(raw[0])
    ensures FirstToken(raw + rest) == Parsed((Word(Integer, raw), |raw|))
  {
    var s := raw + rest;
    assert forall i :: 1 <= i < |raw| ==> IsDigit(raw[i]) by {
      if raw[0] == '-' {
        assert forall i :: 1 <= i < |raw| ==> raw[i] == raw[1..][i - 1];
      }
    }
    SpanIs(s[1..], IsDigit, |raw| - 1);
    assert s[..|raw|] == raw;
  }

  /** A spelled token is read back, whatever follows it loosely. */
  lemma SpellingRead(w: Word, rest: string)
    requires Spellable(w) && Loose(w, rest)
    ensures Spelling(w) != [] && !IsSpace(Spelling(w)[0])
    ensures FirstToken(Spelling(w) + rest) == Parsed((w, |Spelling(w)|))
  {
    match w.kind
    case Identifier => WordRead(w.value, rest);
    case Keyword => KeywordShape(w.value); WordRead(w.value, rest);
    case Integer => NumberRead(w.value, rest);
    case Str => StrRead(w.value, rest);
    case Operator => OperatorRead(w.value, rest);
    case Comma => PunctuationRead(w, rest);
    case LeftParen => PunctuationRead(w, rest);
    case RightParen => PunctuationRead(w, rest);
    case Semicolon => PunctuationRead(w, rest);
    case Star => PunctuationRead(w, rest);
  }

  lemma StrRead(value: string, rest: string)
    requires rest == [] || rest[0] != '\''
    ensures var text := "'" + Quoted(value) + "'"; FirstToken(text + rest) == Parsed((Word(Str, value), |text|))
  {
    hide Quoted, StringBody, Span;
    var text := "'" + Quoted(value) + "'";
    QuotedRead(value, rest);
    assert (text + rest)[1..] == Quoted(value) + ("'" + rest);
    assert (text + rest)[0] == '\'';
  }

  lemma PunctuationRead(w: Word, rest: string)
    requires |w.value| == 1 && Punctuation(w.value[0]) == w.kind != Eof
    ensures !IsSpace(w.value[0]) && FirstToken(w.value + rest) == Parsed((w, 1))
  {
    assert [(w.value + rest)[0]] == w.value;
  }

  lemma OperatorRead(value: string, rest: string)
    requires IsOperator(value) && (rest == [] || rest[0] != '=' || (value != "<" && value != ">"))
    ensures FirstToken(value + rest) == Parsed((Word(Operator, value), |value|))
  {
    var s := value + rest;
    assert s[..|value|] == value;
  }

  // ---------- Texts with any spacing ----------

  /** A token with the white space before it. */
  datatype Spaced = Spaced(gap: string, word: Word)

  function TextOf(items: seq<Spaced>, end: string): string {
    if items == [] then end else items[0].gap + Spelling(items[0].word) + TextOf(items[1..], end)
  }

  predicate AllSpace(s: string) {
    forall i :: 0 <= i < |s| ==> IsSpace(s[i])
  }

  /** Every token can be spelled, gaps are white space, and no token sticks to the text behind it. */
  predicate WellSpaced(items: seq<Spaced>, end: string) {
    if items == [] then AllSpace(end)
    else
      && AllSpace(items[0].gap) && Spellable(items[0].word)
      && Loose(items[0].word, TextOf(items[1..], end)) && WellSpaced(items[1..], end)
  }

  function WordsOf(items: seq<Spaced>): (ws: seq<Word>)
    ensures |ws| == |items| && forall i :: 0 <= i < |ws| ==> ws[i] == items[i].word
  {
    seq(|items|, i requires 0 <= i < |items| => items[i].word)
  }

  function TokenWords(tokens: seq<Token>): (ws: seq<Word>)
    ensures |ws| == |tokens| && forall i :: 0 <= i < |ws| ==> ws[i] == tokens[i].word
  {
    seq(|tokens|, i requires 0 <= i < |tokens| => tokens[i].word)
  }

  lemma {:induction false} SkipSpace(gap: string, rest: string, position: nat)
    requires AllSpace(gap)
    ensures Lex(gap + rest, position) == Lex(rest, position + |gap|)
    decreases |gap|
  {
    if gap == [] {
      assert gap + rest == rest;
    } else {
      assert (gap + rest)[1..] == gap[1..] + rest;
      SkipSpace(gap[1..], rest, position + 1);
    }
  }

  /** Tokens written with any sufficient spacing are read back, followed by one end-of-file token. */
  lemma {:induction false} TextRead(items: seq<Spaced>, end: string, position: nat)
    requires WellSpaced(items, end)
    ensures var r := Lex(TextOf(items, end), position);
      r.Parsed? && TokenWords(r.value) == WordsOf(items) + [Word(Eof, "")]
    decreases |items|
  {
    hide Lex, Loose, Spellable, Spelling, AllSpace;
    if items == [] {
      EndRead(end, position);
      assert WordsOf(items) + [Word(Eof, "")] == [Word(Eof, "")];
    } else {
      var gap, w := items[0].gap, items[0].word;
      var at := position + |gap| + |Spelling(w)|;
      TextRead(items[1..], end, at);
      TokenRead(gap, w, TextOf(items[1..], end), position);
      WordsMore(items, Token(w, position + |gap|), Lex(TextOf(items[1..], end), at).value);
    }
  }

  lemma EndRead(end: string, position: nat)
    requires AllSpace(end)
    ensures var r := Lex(end, position); r.Parsed? && TokenWords(r.value) == [Word(Eof, "")]
  {
    assert end + [] == end;
    SkipSpace(end, [], position);
  }

  lemma WordsMore(items: seq<Spaced>, t: Token, more: seq<Token>)
    requires items != [] && t.word == items[0].word && TokenWords(more) == WordsOf(items[1..]) + [Word(Eof, "")]
    ensures TokenWords([t] + more) == WordsOf(items) + [Word(Eof, "")]
  {
    assert TokenWords([t] + more) == [t.word] + TokenWords(more);
    assert WordsOf(items) == [items[0].word] + WordsOf(items[1..]);
  }

  lemma TokenRead(gap: string, w: Word, rest: string, position: nat)
    requires AllSpace(gap) && Spellable(w) && Loose(w, rest)
    ensures Lex(gap + Spelling(w) + rest, position) ==
      Prepend([Token(w, position + |gap|)], Lex(rest, position + |gap| + |Spelling(w)|))
  {
    hide StringBody, Spellable, Loose, FirstToken, Quoted, Span;
    assert gap + Spelling(w) + rest == gap + (Spelling(w) + rest);
    SkipSpace(gap, Spelling(w) + rest, position);
    SpellingRead(w, rest);
    FirstTokenLength(Spelling(w) + rest);
    assert (Spelling(w) + rest)[|Spelling(w)|..] == rest;
  }
}
