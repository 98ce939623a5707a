/** Exactly which texts break into which tokens. */
module LexerTexts {
  import opened Decimals
  import opened Lexer

  /** `raw` is a way to write the token: keywords in any case, everything else literally. */
  predicate Writes(raw: string, w: Word) {
    if w.kind == Keyword then Upper(raw) == w.value else raw == Spelling(w)
  }

  /** A token as it is written, with the white space before it. */
  datatype Written = Written(gap: string, raw: string, word: Word)

  function WrittenText(items: seq<Written>, end: string): string {
    if items == [] then end else items[0].gap + items[0].raw + WrittenText(items[1..], end)
  }

  /** Gaps are white space, every token is written in one of its ways, and none sticks to the text behind it. */
  predicate WellWritten(items: seq<Written>, end: string) {
    if items == [] then AllSpace(end)
    else
      && AllSpace(items[0].gap) && Spellable(items[0].word) && Writes(items[0].raw, items[0].word)
      && Loose(items[0].word, WrittenText(items[1..], end)) && WellWritten(items[1..], end)
  }

  function WrittenWords(items: seq<Written>): (ws: seq<Word>)
    ensures |ws| == |items| && forall i :: 0 <= i < |ws| ==> ws[i] == items[i].word
  {
    seq(|items|, i requires 0 <= i < |items| => items[i].word)
  }

  // ---------- From text to tokens ----------

  lemma KeywordWritten(raw: string, w: Word)
    requires w.kind == Keyword && Spellable(w) && Upper(raw) == w.value
    ensures raw != [] && StartsWord(raw[0]) && (forall i :: 0 <= i < |raw| ==> InWord(raw[i])) && WordOf(raw) == w
  {
    KeywordShape(w.value);
    assert forall i :: 0 <= i < |raw| ==> UpperChar(raw[i]) == w.value[i];
  }

  /** A token is read back from any of the ways to write it. */
  lemma WritingRead(raw: string, w: Word, rest: string)
    requires Spellable(w) && Writes(raw, w) && Loose(w, rest)
    ensures raw != [] && !IsSpace(raw[0]) && FirstToken(raw + rest) == Parsed((w, |raw|))
  {
    if w.kind == Keyword {
      KeywordWritten(raw, w);
      WordRead(raw, rest);
    } else {
      SpellingRead(w, rest);
    }
  }

  lemma WrittenTokenRead(gap: string, raw: string, w: Word, rest: string, position: nat)
    requires AllSpace(gap) && Spellable(w) && Writes(raw, w) && Loose(w, rest)
    ensures Lex(gap + raw + rest, position) == Prepend([Token(w, position + |gap|)], Lex(rest, position + |gap| + |raw|))
  {
    hide StringBody, Spellable, Loose, FirstToken, Quoted, Span, Writes;
    assert gap + raw + rest == gap + (raw + rest);
    SkipSpace(gap, raw + rest, position);
    WritingRead(raw, w, rest);
    FirstTokenLength(raw + rest);
    assert (raw + rest)[|raw|..] == rest;
  }

  lemma {:induction false} WrittenRead(items: seq<Written>, end: string, position: nat)
    requires WellWritten(items, end)
    ensures var r := Lex(WrittenText(items, end), position);
      r.Parsed? && TokenWords(r.value) == WrittenWords(items) + [Word(Eof, "")]
    decreases |items|
  {
    hide Lex, Loose, Spellable, AllSpace, Writes;
    if items == [] {
      EndRead(end, position);
      assert WrittenWords(items) + [Word(Eof, "")] == [Word(Eof, "")];
    } else {
      var x, rest := items[0], WrittenText(items[1..], end);
      var at := position + |x.gap| + |x.raw|;
      WrittenRead(items[1..], end, at);
      WrittenTokenRead(x.gap, x.raw, x.word, rest, position);
      WrittenMore(items, Token(x.word, position + |x.gap|), Lex(rest, at).value);
    }
  }

  lemma WrittenMore(items: seq<Written>, t: Token, more: seq<Token>)
    requires items != [] && t.word == items[0].word && TokenWords(more) == WrittenWords(items[1..]) + [Word(Eof, "")]
    ensures TokenWords([t] + more) == WrittenWords(items) + [Word(Eof, "")]
  {
    assert TokenWords([t] + more) == [t.word] + TokenWords(more);
    assert WrittenWords(items) == [items[0].word] + WrittenWords(items[1..]);
  }

  // ---------- From tokens to text ----------

  /** A literal ends where its text, with the quotes doubled, has been passed, and no other quote follows. */
  lemma {:induction false} BodyWritten(s: string)
    requires StringBody(s).Parsed?
    ensures var (chars, n) := StringBody(s).value;
      n <= |s| && s[..n] == Quoted(chars) + "'" && (n < |s| ==> s[n] != '\'')
    decreases |s|
  {
    var (chars, n) := StringBody(s).value;
    StringBodyLength(s);
    if s[0] != '\'' {
      BodyWritten(s[1..]);
      var (more, m) := StringBody(s[1..]).value;
      assert chars[1..] == more && s[1..][..m] == s[1..n];
      assert s[..n] == [s[0]] + s[1..n];
    } else if |s| > 1 && s[1] == '\'' {
      BodyWritten(s[2..]);
      var (more, m) := StringBody(s[2..]).value;
      assert chars[1..] == more && s[2..][..m] == s[2..n];
      assert s[..n] == "''" + s[2..n];
    } else {
      assert s[..1] == "'" && Quoted([]) + "'" == "'";
    }
  }

  /** The first token of a text is written at its front, and the rest does not stick to it. */
  lemma FirstWritten(s: string)
    requires s != [] && !IsSpace(s[0]) && FirstToken(s).Parsed?
    ensures var (w, n) := FirstToken(s).value;
      && 1 <= n <= |s| && Spellable(w) && Writes(s[..n], w) && Loose(w, s[n..])
  {
    var (w, n) := FirstToken(s).value;
    FirstTokenLength(s);
    if StartsWord(s[0]) {
      WordWritten(s, n);
    } else if StartsNumber(s) {
      NumberWritten(s, n);
    } else if s[0] == '\'' {
      StringWritten(s);
    } else if Punctuation(s[0]) != Eof {
      assert s[..1] == [s[0]];
    } else {
      OperatorWritten(s);
    }
  }

  lemma WordWritten(s: string, n: nat)
    requires s != [] && StartsWord(s[0]) && n == 1 + Span(s[1..], InWord) && n <= |s|
    ensures var w := WordOf(s[..n]); Spellable(w) && Writes(s[..n], w) && Loose(w, s[n..])
  {
    var raw := s[..n];
    assert forall i :: 1 <= i < n ==> raw[i] == s[1..][i - 1];
    assert n < |s| ==> s[n] == s[1..][n - 1];
  }

  lemma NumberWritten(s: string, n: nat)
    requires s != [] && StartsNumber(s) && n == 1 + Span(s[1..], IsDigit) && n <= |s|
    ensures var w := Word(Integer, s[..n]); Spellable(w) && Writes(s[..n], w) && Loose(w, s[n..])
  {
    var raw := s[..n];
    assert forall i :: 1 <= i < n ==> raw[i] == s[1..][i - 1];
    assert n < |s| ==> s[n] == s[1..][n - 1];
    if raw[0] == '-' {
      assert s[1..][0] == s[1];
      assert forall i :: 0 <= i < n - 1 ==> raw[1..][i] == raw[i + 1];
    }
  }

  lemma StringWritten(s: string)
    requires s != [] && s[0] == '\'' && StringBody(s[1..]).Parsed?
    ensures var (chars, n) := StringBody(s[1..]).value;
      var w := Word(Str, chars); n + 1 <= |s| && Spellable(w) && Writes(s[..n + 1], w) && Loose(w, s[n + 1..])
  {
    BodyWritten(s[1..]);
    var (chars, n) := StringBody(s[1..]).value;
    hide Quoted, StringBody;
    assert s[..n + 1] == "'" + s[1..][..n];
    assert "'" + (Quoted(chars) + "'") == "'" + Quoted(chars) + "'";
    assert n + 1 < |s| ==> s[n + 1] == s[1..][n];
  }

  lemma OperatorWritten(s: string)
    requires s != [] && OperatorAt(s).Parsed?
    ensures var (w, n) := OperatorAt(s).value; 1 <= n <= |s| && Spellable(w) && Writes(s[..n], w) && Loose(w, s[n..])
  {
    var (w, n) := OperatorAt(s).value;
    if n == 2 {
      assert s[..2] == [s[0], s[1]];
    } else {
      assert s[..1] == [s[0]];
    }
  }

  /** White space in front of a text of tokens. */
  function Indented(c: char, items: seq<Written>, end: string): (seq<Written>, string) {
    if items == [] then ([], [c] + end) else ([items[0].(gap := [c] + items[0].gap)] + items[1..], end)
  }

  lemma IndentedText(c: char, items: seq<Written>, end: string)
    requires IsSpace(c) && WellWritten(items, end)
    ensures var (items', end') := Indented(c, items, end);
      && WrittenText(items', end') == [c] + WrittenText(items, end)
      && WellWritten(items', end') && WrittenWords(items') == WrittenWords(items)
  {
    hide *;
    if items == [] {
      IndentedEnd(c, end);
    } else {
      FirstAndRest(items);
      IndentedIs(c, items, end);
      IndentedFirst(c, items[0], items[1..], end);
    }
  }

  lemma FirstAndRest(items: seq<Written>)
    requires items != []
    ensures [items[0]] + items[1..] == items
  {
  }

  lemma IndentedEnd(c: char, end: string)
    requires IsSpace(c) && WellWritten([], end)
    ensures Indented(c, [], end) == ([], [c] + end) && WrittenText([], [c] + end) == [c] + WrittenText([], end) && WellWritten([], [c] + end)
  {
    MoreSpace(c, end);
  }

  lemma IndentedFirst(c: char, x: Written, more: seq<Written>, end: string)
    requires IsSpace(c) && WellWritten([x] + more, end)
    ensures var items' := [x.(gap := [c] + x.gap)] + more;
      && WrittenText(items', end) == [c] + WrittenText([x] + more, end)
      && WellWritten(items', end) && WrittenWords(items') == WrittenWords([x] + more)
  {
    hide *;
    FirstOfWritten(x, more, end);
    FirstOfWritten(x.(gap := [c] + x.gap), more, end);
    MoreSpace(c, x.gap);
    assert [c] + x.gap + x.raw + WrittenText(more, end) == [c] + (x.gap + x.raw + WrittenText(more, end));
  }

  lemma IndentedIs(c: char, items: seq<Written>, end: string)
    requires items != []
    ensures var x := items[0]; Indented(c, items, end) == ([x.(gap := [c] + x.gap)] + items[1..], end)
  {
  }

  lemma MoreSpace(c: char, gap: string)
    requires IsSpace(c)
    ensures AllSpace([c] + gap) <==> AllSpace(gap)
  {
    assert forall i :: 0 <= i < |gap| ==> ([c] + gap)[i + 1] == gap[i];
  }

  lemma FirstOfWritten(x: Written, more: seq<Written>, end: string)
    ensures var items := [x] + more;
      && WrittenText(items, end) == x.gap + x.raw + WrittenText(more, end)
      && (WellWritten(items, end) <==>
          && AllSpace(x.gap) && Spellable(x.word) && Writes(x.raw, x.word)
          && Loose(x.word, WrittenText(more, end)) && WellWritten(more, end))
      && WrittenWords(items) == [x.word] + WrittenWords(more)
  {
    hide Spellable, Loose, Writes, AllSpace;
    assert ([x] + more)[1..] == more;
  }

  /** A text that breaks into tokens is one of the ways to write them. */
  lemma {:induction false} LexWritten(s: string, position: nat) returns (items: seq<Written>, end: string)
    requires Lex(s, position).Parsed?
    ensures WrittenText(items, end) == s && WellWritten(items, end)
    ensures TokenWords(Lex(s, position).value) == WrittenWords(items) + [Word(Eof, "")]
    decreases |s|
  {
    hide *;
    LexMeans(s, position);
    if s == [] {
      items, end := [], [];
      NothingWritten();
    } else if IsSpace(s[0]) {
      var more, end' := LexWritten(s[1..], position + 1);
      IndentedText(s[0], more, end');
      var indented := Indented(s[0], more, end');
      items, end := indented.0, indented.1;
      assert s == [s[0]] + s[1..];
    } else {
      FirstTokenLength(s);
      FirstWritten(s);
      var (w, n) := FirstToken(s).value;
      var more, end' := LexWritten(s[n..], position + n);
      items, end := [Written("", s[..n], w)] + more, end';
      OneMoreWritten(s, n, w, more, end');
      WrittenMore(items, Token(w, position), Lex(s[n..], position + n).value);
    }
  }

  lemma LexMeans(s: string, position: nat)
    requires Lex(s, position).Parsed?
    ensures s == [] ==> TokenWords(Lex(s, position).value) == [Word(Eof, "")]
    ensures s != [] && IsSpace(s[0]) ==> Lex(s, position) == Lex(s[1..], position + 1)
    ensures s != [] && !IsSpace(s[0]) ==> FirstToken(s).Parsed?
    ensures s != [] && !IsSpace(s[0]) ==>
      var (w, n) := FirstToken(s).value;
      1 <= n <= |s| && Lex(s[n..], position + n).Parsed? && Lex(s, position).value == [Token(w, position)] + Lex(s[n..], position + n).value
  {
    hide FirstToken;
    if s != [] && !IsSpace(s[0]) {
      FirstTokenLength(s);
    }
  }

  lemma NothingWritten()
    ensures WrittenText([], []) == [] && WellWritten([], []) && WrittenWords([]) + [Word(Eof, "")] == [Word(Eof, "")]
  {
  }

  lemma OneMoreWritten(s: string, n: nat, w: Word, more: seq<Written>, end: string)
    requires n <= |s| && Spellable(w) && Writes(s[..n], w) && Loose(w, s[n..]) && WellWritten(more, end) && WrittenText(more, end) == s[n..]
    ensures var items := [Written("", s[..n], w)] + more; items[1..] == more && WellWritten(items, end) && WrittenText(items, end) == s
  {
    hide Spellable, Writes, Loose;
    var items := [Written("", s[..n], w)] + more;
    assert items[1..] == more;
    assert "" + s[..n] + s[n..] == s;
  }

  /** A text breaks into the words `ws` if and only if it is written with them: white space, keywords in any case, literals with
      doubled quotes, and enough space to keep neighbours apart. */
  lemma LexIff(s: string, position: nat, ws: seq<Word>)
    ensures (Lex(s, position).Parsed? && TokenWords(Lex(s, position).value) == ws + [Word(Eof, "")]) <==>
      exists items, end :: WellWritten(items, end) && WrittenText(items, end) == s && WrittenWords(items) == ws
  {
    hide Lex, WellWritten, WrittenText;
    if Lex(s, position).Parsed? && TokenWords(Lex(s, position).value) == ws + [Word(Eof, "")] {
      var items, end := LexWritten(s, position);
      SameFront(ws, WrittenWords(items), Word(Eof, ""));
    }
    if items, end :| WellWritten(items, end) && WrittenText(items, end) == s && WrittenWords(items) == ws {
      WrittenRead(items, end, position);
    }
  }

  lemma SameFront(a: seq<Word>, b: seq<Word>, w: Word)
    requires a + [w] == b + [w]
    ensures a == b
  {
    assert (a + [w])[..|a|] == a && (b + [w])[..|b|] == b;
  }
}
