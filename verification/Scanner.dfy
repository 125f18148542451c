/**
 * The tokenizer (nxe_cedar_lexer_next). LexToken and Lex say which tokens a text has; the class Scanner
 * computes them with a moving position.
 */
module Scanner {
  import opened Common
  import opened Digits
  import opened Escapes
  import opened Lexer
  import opened Syntax

  predicate IsSpace(c: char) {
    c == ' ' || c == '\t' || c == '\n' || c == '\r'
  }

  /** What follows the next line feed. */
  function AfterLine(s: string): (t: string)
    ensures |t| <= |s|
  {
    if s == "" then "" else if s[0] == '\n' then s[1..] else AfterLine(s[1..])
  }

  /** Skips white space and line comments. */
  function Trim(s: string): (t: string)
    ensures |t| <= |s|
    decreases |s|
  {
    if s == "" then ""
    else if IsSpace(s[0]) then Trim(s[1..])
    else if s[0] == '/' && |s| >= 2 && s[1] == '/' then Trim(AfterLine(s[2..]))
    else s
  }

  /** The end of the run of name characters that starts at p. */
  function NameSpan(s: string, p: nat): (q: nat)
    requires p <= |s|
    ensures p <= q <= |s| && (q < |s| ==> !IsNameChar(s[q])) && forall i :: p <= i < q ==> IsNameChar(s[i])
    decreases |s| - p
  {
    if p < |s| && IsNameChar(s[p]) then NameSpan(s, p + 1) else p
  }

  function TwoChars(a: char, b: char): Option<Token> {
    if a == '=' && b == '=' then Some(Oper(Eq))
    else if a == '!' && b == '=' then Some(Oper(Ne))
    else if a == '&' && b == '&' then Some(Oper(And))
    else if a == '|' && b == '|' then Some(Oper(Or))
    else if a == ':' && b == ':' then Some(ColonColon)
    else if a == '<' && b == '=' then Some(Oper(Le))
    else if a == '>' && b == '=' then Some(Oper(Ge))
    else None
  }

  function OneChar(c: char): Token {
    match c
    case ':' => Colon
    case '!' => Bang
    case '-' => Oper(Minus)
    case '+' => Oper(Plus)
    case '*' => Oper(Mul)
    case '.' => Dot
    case ',' => Comma
    case ';' => Semicolon
    case '(' => LParen
    case ')' => RParen
    case '{' => LBrace
    case '}' => RBrace
    case '[' => LBracket
    case ']' => RBracket
    case '@' => At
    case '<' => Oper(Lt)
    case '>' => Oper(Gt)
    case _ => ErrorToken
  }

  /** The literal whose body begins here, up to its closing quote. */
  function LexString(body: string): (r: (Token, string))
    ensures |r.1| <= |body|
  {
    var e := CloseQuote(body, 0);
    if e == |body| then (ErrorToken, "")
    else
      var raw := body[..e];
      match Unquote(raw, 0)
      case None => (ErrorToken, body[e + 1..])
      case Some((value, star)) => (Str(value, raw, star), body[e + 1..])
  }

  /** The first token of a text that does not begin with space or comment, and what follows it. */
  function LexToken(s: string): (r: (Token, string))
    requires s != ""
    ensures |r.1| < |s|
  {
    if s[0] == '"' then LexString(s[1..])
    else if IsDigit(s[0]) then (Number(s[0..DigitSpan(s, 0)]), s[DigitSpan(s, 0)..])
    else if IsNameStart(s[0]) then (NameToken(s[..NameSpan(s, 0)]), s[NameSpan(s, 0)..])
    else if |s| >= 2 && TwoChars(s[0], s[1]).Some? then (TwoChars(s[0], s[1]).value, s[2..])
    else (OneChar(s[0]), s[1..])
  }

  /** All tokens of a text. */
  function Lex(s: string): seq<Token>
    decreases |s|
  {
    var t := Trim(s);
    if t == "" then [] else [LexToken(t).0] + Lex(LexToken(t).1)
  }

  // ---- The quote scan and the decoder ----

  /** No backslash, nothing to decode. */
  lemma {:induction false} UnquotePlain(raw: string, p: nat)
    requires p <= |raw| && '\\' !in raw[p..]
    ensures Unquote(raw, p) == Some((raw[p..], false))
    decreases |raw| - p
  {
    if p < |raw| {
      assert raw[p] == raw[p..][0] && raw[p + 1..] == raw[p..][1..];
      UnquotePlain(raw, p + 1);
      assert BodyStep(raw, p) == Some(([raw[p]], p + 1, false));
      assert [raw[p]] + raw[p + 1..] == raw[p..];
    } else {
      assert raw[p..] == "";
    }
  }

  /** The scan for the closing quote finds the same one from every boundary of the decoder. */
  lemma {:induction false} ScanSkips(body: string, p: nat, q: nat)
    requires p <= q <= |body| && forall i :: p <= i < q ==> body[i] != '"' && body[i] != '\\'
    ensures CloseQuote(body, p) == CloseQuote(body, q)
    decreases q - p
  {
    if p < q {
      ScanSkips(body, p + 1, q);
    }
  }

  /**
   * One step of the decoder, taken at a position the quote scan also stops at, ends at such a position
   * again; and a backslash there is never the last character of the literal.
   */
  lemma ScanAgrees(body: string, p: nat)
    requires p <= |body|
    requires CloseQuote(body, p) == CloseQuote(body, 0) < |body|
    requires p < CloseQuote(body, 0) && BodyStep(body[..CloseQuote(body, 0)], p).Some?
    ensures var e := CloseQuote(body, 0);
      var q := BodyStep(body[..e], p).value.1;
      q <= e && CloseQuote(body, q) == e && (body[p] == '\\' ==> p + 1 < e)
  {
    var e := CloseQuote(body, 0);
    var raw := body[..e];
    var q := BodyStep(raw, p).value.1;
    if raw[p] == '\\' {
      assert p + 1 < e;
      if raw[p + 1] != '*' {
        EscapeBodyPlain(raw, p + 1, false);
        forall i | p + 2 <= i < q ensures body[i] != '"' && body[i] != '\\' {
          assert raw[i] == body[i];
        }
        ScanSkips(body, p + 2, q);
      }
    }
  }

  /** Every position the decoder reaches in an accepted literal is one the quote scan stops at. */
  lemma {:induction false} DecoderAligned(body: string, p: nat)
    requires p <= CloseQuote(body, 0) == CloseQuote(body, p) < |body|
    requires Unquote(body[..CloseQuote(body, 0)], p).Some?
    ensures Aligned(body, p)
    decreases |body| - p
  {
    var e := CloseQuote(body, 0);
    if p < e {
      ScanAgrees(body, p);
      DecoderAligned(body, BodyStep(body[..e], p).value.1);
    }
  }

  /** From p on, the decoder only stops at positions from which the scan finds the same closing quote. */
  predicate Aligned(body: string, p: nat)
    requires p <= CloseQuote(body, 0)
    decreases |body| - p
  {
    var e := CloseQuote(body, 0);
    CloseQuote(body, p) == e &&
    (p == e ||
     (BodyStep(body[..e], p).Some? && Aligned(body, BodyStep(body[..e], p).value.1)))
  }

  // ---- Quoting ----

  /** The body of a literal: the closing quote that is put after it is the one that is found. */
  predicate Closed(raw: string) {
    CloseQuote(raw + "\"", 0) == |raw|
  }

  lemma {:induction false} ScanLocal(a: string, b: string, p: nat)
    requires p <= |a| && CloseQuote(a, p) < |a|
    ensures CloseQuote(a + b, p) == CloseQuote(a, p)
    decreases |a| - p
  {
    if a[p] == '\\' {
      ScanLocal(a, b, p + 2);
    } else if a[p] != '"' {
      ScanLocal(a, b, p + 1);
    }
  }

  lemma LexClosed(raw: string, rest: string)
    requires Closed(raw)
    ensures LexString(raw + ("\"" + rest)) == match Unquote(raw, 0)
                                              case None => (ErrorToken, rest)
                                              case Some((value, star)) => (Str(value, raw, star), rest)
  {
    ScanLocal(raw + "\"", rest, 0);
    var body := raw + ("\"" + rest);
    assert body == raw + "\"" + rest;
    assert body[..|raw|] == raw && body[|raw| + 1..] == rest;
  }

  /** Scanning forwards over quoted bytes, one at a time. */
  lemma {:induction false} QuoteScan(done: string, s: string)
    ensures CloseQuote(done + Quote(s) + "\"", |done|) == |done + Quote(s)|
    decreases |s|
  {
    hide QuoteByte;
    if s == "" {
      assert done + Quote(s) == done;
    } else {
      var b := QuoteByte(s[0]);
      QuoteScan(done + b, s[1..]);
      assert done + Quote(s) == done + b + Quote(s[1..]);
      QuotedByteScan(done, s[0], Quote(s[1..]) + "\"");
      assert done + Quote(s) + "\"" == done + b + (Quote(s[1..]) + "\"");
    }
  }

  lemma QuotedByteScan(done: string, c: char, rest: string)
    ensures CloseQuote(done + QuoteByte(c) + rest, |done|) == CloseQuote(done + QuoteByte(c) + rest, |done + QuoteByte(c)|)
  {
    var b, t := QuoteByte(c), done + QuoteByte(c) + rest;
    assert t[|done|] == b[0] && (|b| == 2 ==> t[|done| + 1] == b[1]);
  }

  lemma {:induction false} QuoteDecodes(done: string, s: string)
    ensures Unquote(done + Quote(s), |done|) == Some((s, false))
    decreases |s|
  {
    hide QuoteByte, BodyStep;
    if s == "" {
      assert done + Quote(s) == done;
    } else {
      var b, raw := QuoteByte(s[0]), done + Quote(s);
      QuoteDecodes(done + b, s[1..]);
      assert raw == done + b + Quote(s[1..]);
      assert raw[|done|..|done| + |b|] == b;
      QuotedByte(raw, |done|, s[0]);
      assert s == [s[0]] + s[1..] && |done + b| == |done| + |b|;
    }
  }

  lemma QuotedByte(raw: string, p: nat, c: char)
    requires p + |QuoteByte(c)| <= |raw| && raw[p..p + |QuoteByte(c)|] == QuoteByte(c)
    ensures BodyStep(raw, p) == Some(([c], p + |QuoteByte(c)|, false))
  {
    var b := QuoteByte(c);
    assert raw[p] == b[0] && (|b| == 2 ==> raw[p + 1] == b[1]);
  }

  /** For every string, the literal that escapes quotes and backslashes is read as that string. */
  lemma QuoteRead(s: string, rest: string)
    ensures LexToken("\"" + (Quote(s) + ("\"" + rest))) == (Str(s, Quote(s), false), rest)
  {
    QuoteScan("", s);
    QuoteDecodes("", s);
    assert "" + Quote(s) == Quote(s);
    LexClosed(Quote(s), rest);
    var t := "\"" + (Quote(s) + ("\"" + rest));
    assert t[1..] == Quote(s) + ("\"" + rest);
  }

  // ---- The source's scanner ----

  lemma {:induction false} CloseQuoteShift(s: string, start: nat, p: nat)
    requires start <= p <= |s|
    ensures start + CloseQuote(s[start..], p - start) == CloseQuote(s, p)
    decreases |s| - p
  {
    if p < |s| {
      assert s[start..][p - start] == s[p];
      if s[p] == '\\' {
        if p + 1 < |s| {
          CloseQuoteShift(s, start, p + 2);
        }
      } else if s[p] != '"' {
        CloseQuoteShift(s, start, p + 1);
      }
    }
  }

  lemma {:induction false} NameSpanShift(s: string, start: nat, p: nat)
    requires start <= p <= |s|
    ensures start + NameSpan(s[start..], p - start) == NameSpan(s, p)
    decreases |s| - p
  {
    if p < |s| {
      assert s[start..][p - start] == s[p];
      if IsNameChar(s[p]) {
        NameSpanShift(s, start, p + 1);
      }
    }
  }

  /** What is decoded so far, before what the rest of the body decodes to. */
  function Before(done: string, star: bool, rest: Option<(string, bool)>): Option<(string, bool)> {
    match rest
    case None => None
    case Some((value, stars)) => Some((done + value, star || stars))
  }

  lemma BeforeStep(raw: string, p: nat, done: string, star: bool)
    requires p < |raw|
    ensures Before(done, star, Unquote(raw, p)) ==
      if BodyStep(raw, p).None? then None
      else
        var (bytes, q, s) := BodyStep(raw, p).value;
        Before(done + bytes, star || s, Unquote(raw, q))
  {
    if BodyStep(raw, p).Some? {
      var (bytes, q, s) := BodyStep(raw, p).value;
      if Unquote(raw, q).Some? {
        assert done + (bytes + Unquote(raw, q).value.0) == done + bytes + Unquote(raw, q).value.0;
      }
    }
  }

  /** Decodes a literal body into a buffer of the same length. */
  method Unescape(raw: string) returns (r: Option<(string, bool)>)
    ensures r == Unquote(raw, 0)
  {
    hide Unquote, BodyStep, Before, DecodeEscape;
    var dst := new char[|raw|];
    var sp: nat, d: nat, star := 0, 0, false;
    BeforeNothing(Unquote(raw, 0));
    while sp < |raw|
      invariant d <= sp <= |raw|
      invariant Before(dst[..d], star, Unquote(raw, sp)) == Unquote(raw, 0)
      decreases |raw| - sp
    {
      BeforeStep(raw, sp, dst[..d], star);
      StepCases(raw, sp);
      if raw[sp] == '\\' && sp + 1 < |raw| {
        if raw[sp + 1] == '*' {
          ghost var done := dst[..d];
          dst[d] := '*';
          assert dst[..d + 1] == done + "*";
          sp, d, star := sp + 2, d + 1, true;
        } else {
          ghost var done := dst[..d];
          var next := Decode(raw, sp + 1, dst, d, false);
          if next.None? {
            return None;
          }
          assert dst[..next.value.1] == done + dst[d..next.value.1];
          sp, d := next.value.0, next.value.1;
        }
      } else {
        ghost var done := dst[..d];
        dst[d] := raw[sp];
        assert dst[..d + 1] == done + [raw[sp]];
        sp, d := sp + 1, d + 1;
      }
    }
    BeforeEnd(raw, dst[..d], star);
    return Some((dst[..d], star));
  }

  lemma BeforeNothing(rest: Option<(string, bool)>)
    ensures Before("", false, rest) == rest
  {
    if rest.Some? {
      assert "" + rest.value.0 == rest.value.0;
    }
  }

  lemma BeforeEnd(raw: string, done: string, star: bool)
    ensures Before(done, star, Unquote(raw, |raw|)) == Some((done, star))
  {
    assert done + "" == done;
  }

  lemma StepCases(raw: string, p: nat)
    requires p < |raw|
    ensures BodyStep(raw, p) ==
      if raw[p] == '\\' && p + 1 < |raw| then
        if raw[p + 1] == '*' then Some(("*", p + 2, true))
        else if DecodeEscape(raw, p + 1, false).None? then None
        else Some((DecodeEscape(raw, p + 1, false).value.0, DecodeEscape(raw, p + 1, false).value.1, false))
      else Some(([raw[p]], p + 1, false))
  {
  }

  class Scanner {
    const input: string
    var pos: nat

    constructor (input: string)
      ensures this.input == input && pos == 0
    {
      this.input := input;
      pos := 0;
    }

    /** nxe_cedar_lexer_skip_whitespace. */
    method SkipWhitespace()
      requires pos <= |input|
      modifies this`pos
      ensures old(pos) <= pos <= |input| && input[pos..] == Trim(old(input[pos..]))
    {
      while true
        invariant old(pos) <= pos <= |input|
        invariant Trim(input[pos..]) == Trim(old(input[pos..]))
        decreases |input| - pos
      {
        ghost var s := input[pos..];
        if pos >= |input| {
          return;
        }
        assert s[0] == input[pos] && s[1..] == input[pos + 1..];
        var ch := input[pos];
        if IsSpace(ch) {
          pos := pos + 1;
        } else if ch == '/' && pos + 1 < |input| && input[pos + 1] == '/' {
          assert s[1] == input[pos + 1] && s[2..] == input[pos + 2..];
          pos := pos + 2;
          SkipLine();
        } else {
          return;
        }
      }
    }

    method SkipLine()
      requires pos <= |input|
      modifies this`pos
      ensures old(pos) <= pos <= |input| && input[pos..] == AfterLine(old(input[pos..]))
    {
      while pos < |input| && input[pos] != '\n'
        invariant old(pos) <= pos <= |input|
        invariant AfterLine(input[pos..]) == AfterLine(old(input[pos..]))
        decreases |input| - pos
      {
        assert input[pos..][0] == input[pos] && input[pos..][1..] == input[pos + 1..];
        pos := pos + 1;
      }
      if pos < |input| {
        assert input[pos..][0] == input[pos] && input[pos..][1..] == input[pos + 1..];
        pos := pos + 1;
      }
    }

    /** The scan for the closing quote: escapes are stepped over without looking at them. */
    method ScanBody() returns (hasEscape: bool)
      requires pos <= |input|
      modifies this`pos
      ensures old(pos) <= pos <= |input| && pos == CloseQuote(input, old(pos))
      ensures !hasEscape ==> '\\' !in input[old(pos)..pos]
    {
      hide CloseQuote;
      ghost var start := pos;
      hasEscape := false;
      while pos < |input|
        invariant start <= pos <= |input| && CloseQuote(input, pos) == CloseQuote(input, start)
        invariant !hasEscape ==> '\\' !in input[start..pos]
        decreases |input| - pos
      {
        ScanStep(input, pos);
        if input[pos] == '\\' {
          hasEscape := true;
          if pos + 1 >= |input| {
            pos := pos + 1;
            return;
          }
          pos := pos + 2;
          continue;
        }
        if input[pos] == '"' {
          return;
        }
        assert input[start..pos + 1] == input[start..pos] + [input[pos]];
        pos := pos + 1;
      }
      ScanEnd(input);
    }

    /** nxe_cedar_lexer_read_string, from the opening quote. */
    method ReadString() returns (t: Token)
      requires pos < |input| && input[pos] == '"'
      modifies this`pos
      ensures old(pos) < pos <= |input|
      ensures (t, input[pos..]) == LexString(old(input[pos + 1..]))
    {
      hide Unquote, CloseQuote;
      ghost var body := input[pos + 1..];
      pos := pos + 1;
      var start := pos;
      var hasEscape := ScanBody();
      CloseQuoteShift(input, start, start);
      if pos >= |input| {
        assert input[pos..] == "";
        return ErrorToken;
      }
      var raw := input[start..pos];
      assert raw == body[..pos - start] && input[pos + 1..] == body[pos - start + 1..];
      pos := pos + 1;
      if !hasEscape {
        assert raw[0..] == raw;
        UnquotePlain(raw, 0);
        return Str(raw, raw, false);
      }
      var value := Unescape(raw);
      t := if value.None? then ErrorToken else Str(value.value.0, raw, value.value.1);
    }

    method ReadNumber() returns (t: Token)
      requires pos < |input| && IsDigit(input[pos])
      modifies this`pos
      ensures old(pos) < pos <= |input|
      ensures var s := old(input[pos..]); (t, input[pos..]) == (Number(s[0..DigitSpan(s, 0)]), s[DigitSpan(s, 0)..])
    {
      var start := pos;
      ghost var s := input[pos..];
      while pos < |input| && IsDigit(input[pos])
        invariant start <= pos <= |input| && AllDigits(input[start..pos])
        decreases |input| - pos
      {
        assert input[start..pos + 1] == input[start..pos] + [input[pos]];
        pos := pos + 1;
      }
      assert s[0..pos - start] == input[start..pos] && s[pos - start..] == input[pos..];
      DigitSpanIs(s, 0, pos - start);
      t := Number(input[start..pos]);
    }

    method ReadName() returns (t: Token)
      requires pos < |input| && IsNameStart(input[pos])
      modifies this`pos
      ensures old(pos) < pos <= |input|
      ensures var s := old(input[pos..]); (t, input[pos..]) == (NameToken(s[..NameSpan(s, 0)]), s[NameSpan(s, 0)..])
    {
      hide NameToken;
      var start := pos;
      ghost var s := input[pos..];
      while pos < |input| && IsNameChar(input[pos])
        invariant start <= pos <= |input| && NameSpan(input, pos) == NameSpan(input, start)
        decreases |input| - pos
      {
        pos := pos + 1;
      }
      NameSpanShift(input, start, start);
      assert s[..pos - start] == input[start..pos] && s[pos - start..] == input[pos..];
      t := NameToken(input[start..pos]);
    }

    /** nxe_cedar_lexer_next: the next token, with the position moved past it. */
    method Next() returns (t: Token)
      requires pos <= |input|
      modifies this`pos
      ensures old(pos) <= pos <= |input|
      ensures var s := Trim(old(input[pos..]));
        if s == "" then t == Eof && pos == |input| else (t, input[pos..]) == LexToken(s) && pos > old(pos)
    {
      hide LexString, NameToken, Trim, NameSpan, DigitSpan;
      SkipWhitespace();
      if pos >= |input| {
        return Eof;
      }
      ghost var s := input[pos..];
      assert s[0] == input[pos] && s[1..] == input[pos + 1..];
      var ch := input[pos];
      if ch == '"' {
        t := ReadString();
      } else if IsDigit(ch) {
        t := ReadNumber();
      } else if IsNameStart(ch) {
        t := ReadName();
      } else if pos + 1 < |input| && TwoChars(ch, input[pos + 1]).Some? {
        assert s[1] == input[pos + 1] && s[2..] == input[pos + 2..];
        t := TwoChars(ch, input[pos + 1]).value;
        pos := pos + 2;
      } else {
        assert |s| >= 2 ==> s[1] == input[pos + 1];
        pos := pos + 1;
        t := OneChar(ch);
      }
    }
  }

  /** Every token is one of the grammar's: the end of the text is not a token. */
  lemma NeverEof(s: string)
    requires s != ""
    ensures LexToken(s).0 != Eof
  {
    hide DigitSpan, NameSpan, CloseQuote, Unquote;
  }

  /** The tokens of a text, as a caller that asks for the next one until the end gets them. */
  method Tokenize(text: string) returns (ts: seq<Token>)
    ensures ts == Lex(text)
  {
    hide Lex, LexToken, Trim;
    var scanner := new Scanner(text);
    ts := [];
    assert text[0..] == text;
    var t := scanner.Next();
    NextIs(text, t, scanner.input[scanner.pos..]);
    while t != Eof
      invariant scanner.pos <= |scanner.input| == |text| && scanner.input == text && fresh(scanner)
      invariant Lex(text) == ts + TokensFrom(t, text[scanner.pos..])
      decreases |text| - scanner.pos, t != Eof
    {
      ghost var rest := text[scanner.pos..];
      assert ts + ([t] + Lex(rest)) == ts + [t] + Lex(rest);
      ts := ts + [t];
      t := scanner.Next();
      NextIs(rest, t, text[scanner.pos..]);
    }
  }

  /** t, unless it is the end, and all tokens behind it. */
  function TokensFrom(t: Token, rest: string): seq<Token> {
    if t == Eof then [] else [t] + Lex(rest)
  }

  /** What the next token says about all tokens of the rest. */
  lemma NextIs(s: string, t: Token, rest: string)
    requires var u := Trim(s); if u == "" then t == Eof else (t, rest) == LexToken(u)
    ensures Lex(s) == TokensFrom(t, rest)
  {
    if Trim(s) != "" {
      NeverEof(Trim(s));
    }
  }

  lemma ScanStep(s: string, p: nat)
    requires p < |s|
    ensures CloseQuote(s, p) ==
      if s[p] == '\\' then (if p + 1 >= |s| then |s| else CloseQuote(s, p + 2))
      else if s[p] == '"' then p else CloseQuote(s, p + 1)
  {
  }

  lemma ScanEnd(s: string)
    ensures CloseQuote(s, |s|) == |s|
  {
  }
}
