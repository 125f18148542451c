/**
 * Which texts have which tokens: the tokens' own texts in order, with any white space and line comments
 * between them, as long as no text runs on into the next one. Every text without an error token is written
 * in this way.
 */
module Lexemes {
  import opened Common
  import opened Digits
  import opened Lexer
  import opened Scanner
  import opened Syntax
  import opened Rendering
  import Pieces

  // ---- Gaps ----

  /** One character of white space, or a comment with the line feed that ends it. */
  datatype Gap = Blank(c: char) | Comment(text: string)

  predicate IsGap(g: Gap) {
    match g
    case Blank(c) => c as int == 9 || c as int == 10 || c as int == 13 || c as int == 32
    case Comment(text) => (10 as char) !in text
  }

  function GapText(g: Gap): (s: string)
    ensures s != ""
  {
    match g
    case Blank(c) => [c]
    case Comment(text) => "//" + (text + [10 as char])
  }

  predicate AreGaps(gs: seq<Gap>) {
    forall i :: 0 <= i < |gs| ==> IsGap(gs[i])
  }

  function GapsText(gs: seq<Gap>): string {
    if gs == [] then "" else GapText(gs[0]) + GapsText(gs[1..])
  }

  /** A comment that the end of the text ends. */
  function OpenText(open: Option<string>): string {
    match open
    case None => ""
    case Some(text) => "//" + text
  }

  predicate IsOpen(open: Option<string>) {
    open.Some? ==> (10 as char) !in open.value
  }

  lemma {:induction false} LineEnds(text: string, s: string)
    requires (10 as char) !in text
    ensures AfterLine(text + ([10 as char] + s)) == s
    decreases |text|
  {
    var t := text + ([10 as char] + s);
    if text == "" {
      assert t[1..] == s;
    } else {
      assert t[1..] == text[1..] + ([10 as char] + s);
      LineEnds(text[1..], s);
    }
  }

  lemma {:induction false} NoLineEnd(text: string)
    requires (10 as char) !in text
    ensures AfterLine(text) == ""
    decreases |text|
  {
    if text != "" {
      NoLineEnd(text[1..]);
    }
  }

  lemma GapTrimmed(g: Gap, s: string)
    requires IsGap(g)
    ensures Trim(GapText(g) + s) == Trim(s)
  {
    var t := GapText(g) + s;
    match g
    case Blank(c) =>
      assert t[1..] == s;
    case Comment(text) =>
      assert t[2..] == text + ([10 as char] + s);
      LineEnds(text, s);
  }

  /** White space and comments before a token do not matter. */
  lemma {:induction false} GapsTrimmed(gs: seq<Gap>, s: string)
    requires AreGaps(gs)
    ensures Trim(GapsText(gs) + s) == Trim(s)
    decreases |gs|
  {
    hide Trim, GapText, IsGap;
    if gs == [] {
      assert GapsText(gs) + s == s;
    } else {
      assert GapsText(gs) + s == GapText(gs[0]) + (GapsText(gs[1..]) + s);
      GapTrimmed(gs[0], GapsText(gs[1..]) + s);
      GapsTrimmed(gs[1..], s);
    }
  }

  lemma OpenTrimmed(open: Option<string>)
    requires IsOpen(open)
    ensures Trim(OpenText(open)) == ""
  {
    if open.Some? {
      assert OpenText(open)[2..] == open.value;
      NoLineEnd(open.value);
    }
  }

  /** A line: what is before its end, and what is behind it, or nothing if it has none. */
  lemma {:induction false} LineOf(s: string) returns (text: string)
    ensures (10 as char) !in text
    ensures if (10 as char) in s then s == text + ([10 as char] + AfterLine(s)) else s == text
    decreases |s|
  {
    if s == "" || s[0] == 10 as char {
      text := "";
    } else {
      var t := LineOf(s[1..]);
      text := [s[0]] + t;
      assert s == [s[0]] + s[1..];
    }
  }

  /** What is skipped before a token is white space and comments. */
  lemma {:induction false} Skipped(s: string) returns (gs: seq<Gap>, open: Option<string>)
    ensures AreGaps(gs) && IsOpen(open) && s == GapsText(gs) + (OpenText(open) + Trim(s))
    ensures open.Some? ==> Trim(s) == ""
    decreases |s|
  {
    gs, open := [], None;
    if s != "" && IsSpace(s[0]) {
      var tail;
      tail, open := Skipped(s[1..]);
      gs := FirstGap(Blank(s[0]), tail, s, OpenText(open) + Trim(s));
    } else if |s| >= 2 && s[0] == '/' && s[1] == '/' {
      var text := LineOf(s[2..]);
      if (10 as char) in s[2..] {
        var rest := AfterLine(s[2..]);
        assert s == "//" + (text + [10 as char]) + rest;
        var tail;
        tail, open := Skipped(rest);
        gs := FirstGap(Comment(text), tail, s, OpenText(open) + Trim(s));
      } else {
        open := Some(text);
        NoLineEnd(text);
        assert s == "//" + text;
      }
    }
  }

  lemma FirstGap(g: Gap, tail: seq<Gap>, s: string, rest: string) returns (gs: seq<Gap>)
    requires IsGap(g) && AreGaps(tail) && s == GapText(g) + (GapsText(tail) + rest)
    ensures AreGaps(gs) && s == GapsText(gs) + rest
  {
    gs := [g] + tail;
    assert gs[1..] == tail;
    assert GapText(g) + (GapsText(tail) + rest) == GapText(g) + GapsText(tail) + rest;
  }

  // ---- Tokens ----

  /** Letters of ASCII, digits and the underscore, by number. */
  predicate InWords(c: char) {
    var n := c as int;
    48 <= n <= 57 || 65 <= n <= 90 || n == 95 || 97 <= n <= 122
  }

  /** The next character does not continue t. */
  predicate Apart(t: Token, rest: string) {
    rest != "" ==>
      && (IsWord(t) ==> !InWords(rest[0]))
      && (t.Number? ==> !(48 <= rest[0] as int <= 57))
      && (t == Colon ==> rest[0] != ':')
      && (t == Bang || t == Oper(Lt) || t == Oper(Gt) ==> rest[0] != '=')
  }

  lemma NameEnds(name: string, rest: string)
    requires IsName(name) && (rest != "" ==> !InWords(rest[0]))
    ensures LexToken(name + rest) == (NameToken(name), rest)
  {
    var s := name + rest;
    var q := NameSpan(s, 0);
    assert s[..|name|] == name && s[|name|..] == rest;
    assert forall i :: 0 <= i < |name| ==> s[i] == name[i];
    assert q == |name|;
    assert !IsDigit(s[0]) && s[0] != '"';
  }

  lemma NumberEnds(digits: DigitString, rest: string)
    requires digits != "" && (rest != "" ==> !(48 <= rest[0] as int <= 57))
    ensures LexToken(digits + rest) == (Number(digits), rest)
  {
    var s := digits + rest;
    assert s[0..|digits|] == digits && s[|digits|..] == rest && s[0] == digits[0];
    DigitSpanIs(s, 0, |digits|);
    hide DigitSpan;
  }

  lemma StringEnds(t: Token, rest: string)
    requires t.Str? && Renderable(t)
    ensures LexToken(Text(t) + rest) == (t, rest)
  {
    hide Closed, Unquote;
    var s := Text(t) + rest;
    assert s[1..] == t.raw + ("\"" + rest);
    LexClosed(t.raw, rest);
  }

  lemma SymbolEnds(t: Token, rest: string)
    requires !IsWord(t) && !t.Str? && !t.Number? && Renderable(t) && Apart(t, rest)
    ensures LexToken(Text(t) + rest) == (t, rest)
  {
    var s := Text(t) + rest;
    SymbolText(t);
    if |Text(t)| == 2 {
      hide Text, OneChar, TwoChars, Renderable, Apart;
      assert s[0] == Text(t)[0] && s[1] == Text(t)[1] && s[2..] == rest;
    } else {
      NoLonger(t, rest);
      hide Text, OneChar, TwoChars, Renderable, Apart;
      assert s[0] == Text(t)[0] && s[1..] == rest && (rest != "" ==> s[1] == rest[0]);
    }
  }

  lemma NoLonger(t: Token, rest: string)
    requires !IsWord(t) && !t.Str? && !t.Number? && Renderable(t) && Apart(t, rest) && |Text(t)| == 1
    ensures rest != "" ==> TwoChars(Text(t)[0], rest[0]).None?
  {
  }

  /** A token's text, and something that does not continue it, is read as that token. */
  lemma TokenEnds(t: Token, rest: string)
    requires Renderable(t) && Apart(t, rest)
    ensures LexToken(Text(t) + rest) == (t, rest)
    ensures Text(t) != "" && Trim(Text(t) + rest) == Text(t) + rest
  {
    TokenLexed(t, rest);
    assert (Text(t) + rest)[0] == Text(t)[0];
    if IsWord(t) {
      WordIsName(t);
      WordLexed(t);
      NameEnds(Text(t), rest);
    } else if t.Str? {
      StringEnds(t, rest);
    } else if t.Number? {
      NumberEnds(t.digits, rest);
    } else {
      SymbolEnds(t, rest);
    }
    hide LexToken, Text, Renderable, Apart;
  }

  lemma WordOnly(name: string)
    requires IsName(name)
    ensures var t := NameToken(name); IsWord(t) && Renderable(t) && Text(t) == name
  {
    hide VarText, KindText, OperText, IsName;
    if Keyword(name).Some? {
      KeywordSpelled(name);
    }
    hide Keyword;
  }

  lemma KeywordSpelled(name: string)
    requires Keyword(name).Some?
    ensures var t := Keyword(name).value; IsWord(t) && Text(t) == name && !t.Ident?
  {
  }

  lemma SymbolOnly(a: char, b: char)
    ensures TwoChars(a, b).Some? ==>
      var t := TwoChars(a, b).value; !IsWord(t) && Renderable(t) && Text(t) == [a, b] && t != Colon && t != Bang && t != Oper(Lt) && t != Oper(Gt)
    ensures OneChar(a) != ErrorToken ==>
      var t := OneChar(a); !IsWord(t) && Renderable(t) && Text(t) == [a] && (TwoChars(a, b).None? ==> Apart(t, [b]))
  {
  }

  lemma NameIs(s: string)
    requires s != "" && IsNameStart(s[0])
    ensures IsName(s[..NameSpan(s, 0)]) && !IsDigit(s[0]) && s[0] != '"'
    ensures NameSpan(s, 0) < |s| ==> !InWords(s[NameSpan(s, 0)])
  {
    var q := NameSpan(s, 0);
    assert q > 0;
    assert forall i :: 0 <= i < q ==> s[..q][i] == s[i];
  }

  lemma NumberIs(s: string)
    requires s != "" && IsDigit(s[0])
    ensures var q := DigitSpan(s, 0); q > 0 && AllDigits(s[0..q]) && (q < |s| ==> !(48 <= s[q] as int <= 57))
  {
  }

  /** What is read as a token without an error is the token's text, and what follows does not continue it. */
  lemma TokenOnly(s: string)
    requires s != "" && !LexToken(s).0.ErrorToken?
    ensures var (t, rest) := LexToken(s); Renderable(t) && s == Text(t) + rest && Apart(t, rest)
  {
    if s[0] == '"' {
      StringOnly(s);
    } else if IsDigit(s[0]) {
      NumberIs(s);
      NumberTokenOnly(s);
    } else if IsNameStart(s[0]) {
      WordTokenOnly(s);
    } else {
      SymbolTokenOnly(s);
    }
    hide *;
  }

  lemma NumberTokenOnly(s: string)
    requires s != "" && IsDigit(s[0])
    ensures var (t, rest) := LexToken(s); Renderable(t) && s == Text(t) + rest && Apart(t, rest)
  {
    NumberIs(s);
    hide DigitSpan;
    var q := DigitSpan(s, 0);
    assert s == s[0..q] + s[q..];
  }

  lemma WordTokenOnly(s: string)
    requires s != "" && IsNameStart(s[0])
    ensures var (t, rest) := LexToken(s); Renderable(t) && s == Text(t) + rest && Apart(t, rest)
  {
    NameIs(s);
    var q := NameSpan(s, 0);
    WordOnly(s[..q]);
    hide NameSpan, Text, Renderable, NameToken, IsName, InWords;
    assert s == s[..q] + s[q..];
    assert LexToken(s) == (NameToken(s[..q]), s[q..]);
    hide LexToken;
    WordsApart(NameToken(s[..q]), s[q..]);
  }

  lemma WordsApart(t: Token, rest: string)
    requires IsWord(t) && (rest != "" ==> !InWords(rest[0]))
    ensures Apart(t, rest)
  {
  }

  lemma SymbolTokenOnly(s: string)
    requires s != "" && s[0] != '"' && !IsDigit(s[0]) && !IsNameStart(s[0]) && !LexToken(s).0.ErrorToken?
    ensures var (t, rest) := LexToken(s); Renderable(t) && s == Text(t) + rest && Apart(t, rest)
  {
    SymbolOnly(s[0], if |s| >= 2 then s[1] else ' ');
    hide Text, Renderable, OneChar, TwoChars, IsWord;
    if |s| >= 2 && TwoChars(s[0], s[1]).Some? {
      assert s == [s[0], s[1]] + s[2..];
    } else {
      assert s == [s[0]] + s[1..];
      assert |s| >= 2 ==> s[1..][0] == s[1];
    }
  }

  lemma StringOnly(s: string)
    requires s != "" && s[0] == '"' && !LexToken(s).0.ErrorToken?
    ensures var (t, rest) := LexToken(s); Renderable(t) && s == Text(t) + rest && Apart(t, rest)
  {
    hide *;
    Pieces.QuotedToken(s);
    var ps, rest := Pieces.LiteralOnly(s);
    var raw := Pieces.TextOf(ps);
    assert raw + "\"" == raw + ("\"" + "") && (raw + "\"")[0..] == raw + "\"" && raw[0..] == raw;
    Pieces.PiecesClosed(ps, raw + "\"", 0, "");
    Pieces.PiecesDecode(ps, raw, 0);
    StringParts(Pieces.ValueOf(ps), raw, Pieces.Starred(ps), rest);
  }

  lemma StringParts(value: string, raw: string, star: bool, rest: string)
    requires CloseQuote(raw + "\"", 0) == |raw| && Unquote(raw, 0) == Some((value, star))
    ensures var t := Str(value, raw, star); Renderable(t) && "\"" + (raw + ("\"" + rest)) == Text(t) + rest && Apart(t, rest)
  {
    hide CloseQuote, Unquote;
    var t := Str(value, raw, star);
    StringText(t, rest);
    hide Text, Apart, Renderable;
    Regrouped("\"", raw, "\"", rest);
  }

  lemma StringText(t: Token, rest: string)
    requires t.Str?
    ensures Text(t) == "\"" + t.raw + "\"" && Apart(t, rest)
  {
    hide Renderable;
  }

  lemma Regrouped(a: string, b: string, c: string, d: string)
    ensures a + (b + (c + d)) == a + b + c + d
  {
  }

  // ---- Texts ----

  /** Tokens with what is written between them. */
  datatype Layout = End(gaps: seq<Gap>, open: Option<string>) | Next(gaps: seq<Gap>, t: Token, tail: Layout)

  function Written(l: Layout): string {
    match l
    case End(gaps, open) => GapsText(gaps) + OpenText(open)
    case Next(gaps, t, tail) => GapsText(gaps) + (Text(t) + Written(tail))
  }

  function TokensOf(l: Layout): seq<Token> {
    match l
    case End(_, _) => []
    case Next(_, t, tail) => [t] + TokensOf(tail)
  }

  predicate Proper(l: Layout) {
    match l
    case End(gaps, open) => AreGaps(gaps) && IsOpen(open)
    case Next(gaps, t, tail) => AreGaps(gaps) && Renderable(t) && Apart(t, Written(tail)) && Proper(tail)
  }

  /** However tokens are laid out, the text has exactly these tokens. */
  lemma {:induction false} LexWritten(l: Layout)
    requires Proper(l)
    ensures Lex(Written(l)) == TokensOf(l)
  {
    hide Trim, GapsText, OpenText, LexToken, Text, Renderable, Apart, AreGaps;
    match l
    case End(gaps, open) =>
      GapsTrimmed(gaps, OpenText(open));
      OpenTrimmed(open);
    case Next(gaps, t, tail) =>
      GapsTrimmed(gaps, Text(t) + Written(tail));
      TokenEnds(t, Written(tail));
      LexWritten(tail);
  }

  /** Every text without an error token is such a layout. */
  lemma {:induction false} LayoutOf(s: string) returns (l: Layout)
    requires ErrorToken !in Lex(s)
    ensures Proper(l) && Written(l) == s && TokensOf(l) == Lex(s)
    decreases |s|
  {
    hide Trim, GapsText, OpenText, LexToken, Text, Renderable, Apart, AreGaps;
    var gaps, open := Skipped(s);
    var u := Trim(s);
    if u == "" {
      l := End(gaps, open);
      assert OpenText(open) + "" == OpenText(open);
    } else {
      var (t, rest) := LexToken(u);
      assert Lex(s) == [t] + Lex(rest) && Lex(s)[0] == t;
      TokenOnly(u);
      var tail := LayoutOf(rest);
      l := Next(gaps, t, tail);
      NoneOpen(open, u);
    }
  }

  lemma NoneOpen(open: Option<string>, u: string)
    requires open.None?
    ensures OpenText(open) + u == u
  {
  }

  /** The tokens of a text, without naming the tokenizer: s has the tokens ts exactly if it is a layout of them. */
  lemma TokensExactly(s: string, ts: seq<Token>)
    requires ErrorToken !in ts
    ensures Lex(s) == ts <==> exists l :: Proper(l) && Written(l) == s && TokensOf(l) == ts
  {
    hide Lex, Proper, Written, TokensOf;
    if Lex(s) == ts {
      var l := LayoutOf(s);
    }
    forall l | Proper(l) && Written(l) == s && TokensOf(l) == ts ensures Lex(s) == ts {
      LexWritten(l);
    }
  }
}
