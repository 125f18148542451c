/**
 * The grammar of string literals and patterns, piece by piece: which texts are accepted, and which bytes
 * or pattern elements each piece stands for.
 */
module Pieces {
  import opened Common
  import opened Digits
  import opened Escapes
  import opened Lexer
  import opened Pattern
  import opened Scanner
  import opened Syntax
  import Utf8

  /** A character as it is, a one-letter escape, `\xHH`, `\u{H..}` or `\*`. */
  datatype Piece = Raw(c: char) | Letter(c: char) | HexByte(h: char, l: char) | Unicode(digits: string) | Asterisk

  predicate IsHex(c: char): (b: bool)
    ensures b <==> HexVal(c).Some?
  {
    '0' <= c <= '9' || 'a' <= c <= 'f' || 'A' <= c <= 'F'
  }

  /** The value of a hexadecimal digit is its place among the sixteen, in either case. */
  lemma HexTable(c: char, i: nat)
    requires i < 16
    ensures HexVal("0123456789abcdef"[i]) == Some(i) == HexVal("0123456789ABCDEF"[i])
    ensures HexVal(c).Some? <==> IsHex(c)
  {
  }

  /** The number that hexadecimal digits denote, cp already read. */
  function Worth(cp: nat, digits: string): nat
    requires forall i :: 0 <= i < |digits| ==> IsHex(digits[i])
    decreases |digits|
  {
    if digits == "" then cp
    else
      assert IsHex(digits[0]);
      Worth(cp * 16 + HexVal(digits[0]).value, digits[1..])
  }

  predicate Valid(p: Piece) {
    match p
    case Raw(c) => c != '\\'
    case Letter(c) => c == '"' || c == '\\' || c == 'n' || c == 'r' || c == 't' || c == '0'
    case HexByte(h, l) => IsHex(h) && IsHex(l)
    case Unicode(digits) =>
      1 <= |digits| <= 6 && (forall i :: 0 <= i < |digits| ==> IsHex(digits[i])) && Utf8.IsScalar(Worth(0, digits))
    case Asterisk => true
  }

  function Spelling(p: Piece): (s: string)
    ensures s != ""
  {
    match p
    case Raw(c) => [c]
    case Letter(c) => ['\\', c]
    case HexByte(h, l) => ['\\', 'x', h, l]
    case Unicode(digits) => "\\u{" + digits + "}"
    case Asterisk => "\\*"
  }

  /** The bytes of a piece, by their numbers. */
  function BytesOf(p: Piece): string
    requires Valid(p)
  {
    match p
    case Raw(c) => [c]
    case Letter(c) =>
      if c == 'n' then [10 as char] else if c == 'r' then [13 as char] else if c == 't' then [9 as char]
      else if c == '0' then [0 as char] else [c]
    case HexByte(h, l) => [(HexVal(h).value * 16 + HexVal(l).value) as char]
    case Unicode(digits) => Utf8.Encode(Worth(0, digits))
    case Asterisk => "*"
  }

  predicate AllValid(ps: seq<Piece>) {
    forall i :: 0 <= i < |ps| ==> Valid(ps[i])
  }

  function TextOf(ps: seq<Piece>): string {
    if ps == [] then "" else Spelling(ps[0]) + TextOf(ps[1..])
  }

  function ValueOf(ps: seq<Piece>): string
    requires AllValid(ps)
  {
    if ps == [] then "" else BytesOf(ps[0]) + ValueOf(ps[1..])
  }

  predicate Starred(ps: seq<Piece>) {
    exists i :: 0 <= i < |ps| && ps[i] == Asterisk
  }

  // ---- One piece ----

  lemma {:induction false} HexRunReads(s: string, p: nat, cp: nat, n: nat, digits: string, rest: string)
    requires p <= |s| && s[p..] == digits + ("}" + rest) && 1 <= n + |digits| <= 6
    requires forall i :: 0 <= i < |digits| ==> IsHex(digits[i])
    ensures HexRun(s, p, cp, n) == Some((Worth(cp, digits), p + |digits|))
    decreases |digits|
  {
    if digits == "" {
      assert s[p..][0] == '}' == s[p];
    } else {
      assert s[p..][0] == digits[0] == s[p];
      assert s[p + 1..] == s[p..][1..] == digits[1..] + ("}" + rest);
      HexRunReads(s, p + 1, cp * 16 + HexVal(s[p]).value, n + 1, digits[1..], rest);
    }
  }

  /** The other way round: what a hex run that is accepted looks like. */
  lemma {:induction false} HexRunOnly(s: string, p: nat, cp: nat, n: nat) returns (digits: string)
    requires p <= |s| && HexRun(s, p, cp, n).Some? && n <= 6
    ensures (forall i :: 0 <= i < |digits| ==> IsHex(digits[i])) && 1 <= n + |digits| <= 6
    ensures HexRun(s, p, cp, n) == Some((Worth(cp, digits), p + |digits|))
    ensures p + |digits| < |s| && s[p..p + |digits| + 1] == digits + "}"
    decreases |s| - p
  {
    if s[p] == '}' {
      digits := "";
    } else {
      var d := HexRunOnly(s, p + 1, cp * 16 + HexVal(s[p]).value, n + 1);
      digits := [s[p]] + d;
      assert digits[1..] == d;
      OneMoreDigit(s, p, d);
    }
  }

  lemma OneMoreDigit(s: string, p: nat, d: string)
    requires p + 1 + |d| < |s| && s[p + 1..p + 1 + |d| + 1] == d + "}"
    ensures s[p..p + 1 + |d| + 1] == [s[p]] + d + "}"
  {
    assert s[p..p + 1 + |d| + 1] == [s[p]] + s[p + 1..p + 1 + |d| + 1];
  }

  /** What follows the backslash of an escape. */
  function Escaped(p: Piece): (s: string)
    requires !p.Raw?
    ensures s != "" && Spelling(p) == "\\" + s && |Spelling(p)| == 1 + |s|
  {
    Spelling(p)[1..]
  }

  /** What an escape stands for. */
  lemma EscapeReads(p: Piece, s: string, i: nat, rest: string, rejectXff: bool)
    requires Valid(p) && !p.Raw? && !p.Asterisk? && i <= |s| && s[i..] == Escaped(p) + rest
    ensures DecodeEscape(s, i, rejectXff) ==
      if rejectXff && BytesOf(p) == [WILD] then None else Some((BytesOf(p), i + |Escaped(p)|))
  {
    hide *;
    match p
    case Letter(c) => LetterReads(c, s, i, rest, rejectXff);
    case HexByte(h, l) => HexByteReads(h, l, s, i, rest, rejectXff);
    case Unicode(digits) => UnicodeReads(digits, s, i, rest, rejectXff);
  }

  lemma LetterReads(c: char, s: string, i: nat, rest: string, rejectXff: bool)
    requires Valid(Letter(c)) && i <= |s| && s[i..] == Escaped(Letter(c)) + rest
    ensures BytesOf(Letter(c)) != [WILD]
    ensures DecodeEscape(s, i, rejectXff) == Some((BytesOf(Letter(c)), i + |Escaped(Letter(c))|))
  {
    hide HexRun, HexVal;
    assert Escaped(Letter(c)) == [c] && s[i] == s[i..][0] == c;
  }

  lemma HexByteReads(h: char, l: char, s: string, i: nat, rest: string, rejectXff: bool)
    requires Valid(HexByte(h, l)) && i <= |s| && s[i..] == Escaped(HexByte(h, l)) + rest
    ensures DecodeEscape(s, i, rejectXff) ==
      if rejectXff && BytesOf(HexByte(h, l)) == [WILD] then None
      else Some((BytesOf(HexByte(h, l)), i + |Escaped(HexByte(h, l))|))
  {
    hide HexRun, HexVal;
    assert Escaped(HexByte(h, l)) == ['x', h, l];
    assert s[i] == s[i..][0] == 'x' && s[i + 1] == s[i..][1] == h && s[i + 2] == s[i..][2] == l;
  }

  lemma UnicodeReads(digits: string, s: string, i: nat, rest: string, rejectXff: bool)
    requires Valid(Unicode(digits)) && i <= |s| && s[i..] == Escaped(Unicode(digits)) + rest
    ensures BytesOf(Unicode(digits)) != [WILD]
    ensures DecodeEscape(s, i, rejectXff) == Some((BytesOf(Unicode(digits)), i + |Escaped(Unicode(digits))|))
  {
    hide *;
    UnicodeBytes(digits);
    UnicodeValid(digits);
    EscapedUnicode(digits);
    Regroup(['u', '{'], digits + "}", rest);
    Regroup(digits, "}", rest);
    Ahead(s, i, digits + ("}" + rest));
    HexRunReads(s, i + 2, 0, 0, digits, rest);
    BracedEscape(s, i, rejectXff);
  }

  lemma UnicodeValid(digits: string)
    requires Valid(Unicode(digits))
    ensures 1 <= |digits| <= 6 && Utf8.IsScalar(Worth(0, digits)) && BytesOf(Unicode(digits)) == Utf8.Encode(Worth(0, digits))
    ensures forall i :: 0 <= i < |digits| ==> IsHex(digits[i])
  {
    hide IsHex, Worth, Utf8.Encode, Utf8.IsScalar;
  }

  lemma Ahead(s: string, i: nat, t: string)
    requires i <= |s| && s[i..] == ['u', '{'] + t
    ensures i + 1 < |s| && s[i] == 'u' && s[i + 1] == '{' && s[i + 2..] == t
  {
    assert s[i] == s[i..][0] && s[i + 1] == s[i..][1] && s[i + 2..] == s[i..][2..];
  }

  lemma BracedEscape(s: string, i: nat, rejectXff: bool)
    requires i + 1 < |s| && s[i] == 'u' && s[i + 1] == '{' && HexRun(s, i + 2, 0, 0).Some?
    ensures var (cp, q) := HexRun(s, i + 2, 0, 0).value;
      Utf8.IsScalar(cp) ==> DecodeEscape(s, i, rejectXff) == Some((Utf8.Encode(cp), q + 1))
  {
    hide HexRun, HexVal, Utf8.Encode, Utf8.IsScalar;
  }

  lemma UnicodeBytes(digits: string)
    requires Valid(Unicode(digits))
    ensures BytesOf(Unicode(digits)) != [WILD]
  {
    Utf8.EncodeWellFormed(Worth(0, digits));
  }

  lemma EscapeOnly(s: string, i: nat, rejectXff: bool) returns (p: Piece)
    requires i <= |s| && DecodeEscape(s, i, rejectXff).Some?
    ensures Valid(p) && !p.Raw? && !p.Asterisk?
    ensures var (bytes, q) := DecodeEscape(s, i, rejectXff).value;
      s[i..q] == Escaped(p) && bytes == BytesOf(p) && (rejectXff ==> BytesOf(p) != [WILD])
  {
    if s[i] == 'u' {
      p := UnicodeOnly(s, i, rejectXff);
    } else {
      p := ShortOnly(s, i, rejectXff);
    }
    hide *;
  }

  lemma ShortOnly(s: string, i: nat, rejectXff: bool) returns (p: Piece)
    requires i < |s| && s[i] != 'u' && DecodeEscape(s, i, rejectXff).Some?
    ensures Valid(p) && !p.Raw? && !p.Asterisk?
    ensures var (bytes, q) := DecodeEscape(s, i, rejectXff).value;
      s[i..q] == Escaped(p) && bytes == BytesOf(p) && (rejectXff ==> BytesOf(p) != [WILD])
  {
    hide HexRun, HexVal;
    if s[i] == 'x' {
      p := HexByte(s[i + 1], s[i + 2]);
      assert s[i..i + 3] == Escaped(p);
    } else {
      p := Letter(s[i]);
      assert s[i..i + 1] == Escaped(p);
    }
  }

  lemma UnicodeOnly(s: string, i: nat, rejectXff: bool) returns (p: Piece)
    requires i < |s| && s[i] == 'u' && DecodeEscape(s, i, rejectXff).Some?
    ensures Valid(p) && !p.Raw? && !p.Asterisk?
    ensures var (bytes, q) := DecodeEscape(s, i, rejectXff).value;
      s[i..q] == Escaped(p) && bytes == BytesOf(p) && BytesOf(p) != [WILD]
  {
    hide *;
    UnicodeCase(s, i, rejectXff);
    var digits := HexRunOnly(s, i + 2, 0, 0);
    p := Unicode(digits);
    UnicodeIs(digits);
    UnicodeBytes(digits);
    UnicodeText(s, i, digits);
  }

  lemma UnicodeIs(digits: string)
    requires forall i :: 0 <= i < |digits| ==> IsHex(digits[i])
    ensures Valid(Unicode(digits)) <==> 1 <= |digits| <= 6 && Utf8.IsScalar(Worth(0, digits))
    ensures Valid(Unicode(digits)) ==> BytesOf(Unicode(digits)) == Utf8.Encode(Worth(0, digits))
  {
    hide IsHex, Worth, Utf8.Encode, Utf8.IsScalar;
  }

  lemma UnicodeText(s: string, i: nat, digits: string)
    requires i + 2 + |digits| < |s| && s[i] == 'u' && s[i + 1] == '{' && s[i + 2..i + 2 + |digits| + 1] == digits + "}"
    ensures s[i..i + 2 + |digits| + 1] == Escaped(Unicode(digits))
  {
    EscapedUnicode(digits);
    hide *;
    TwoMore(s, i, digits + "}");
  }

  lemma EscapedUnicode(digits: string)
    ensures Escaped(Unicode(digits)) == ['u', '{'] + (digits + "}")
  {
  }

  lemma TwoMore(s: string, i: nat, t: string)
    requires i + 2 + |t| <= |s| && s[i + 2..i + 2 + |t|] == t
    ensures s[i..i + 2 + |t|] == [s[i], s[i + 1]] + t
  {
    assert s[i..i + 2 + |t|] == s[i..i + 2] + s[i + 2..i + 2 + |t|];
  }

  lemma UnicodeCase(s: string, i: nat, rejectXff: bool)
    requires i < |s| && s[i] == 'u' && DecodeEscape(s, i, rejectXff).Some?
    ensures i + 1 < |s| && s[i + 1] == '{' && HexRun(s, i + 2, 0, 0).Some?
    ensures var (cp, q) := HexRun(s, i + 2, 0, 0).value;
      Utf8.IsScalar(cp) && DecodeEscape(s, i, rejectXff) == Some((Utf8.Encode(cp), q + 1))
  {
    hide HexRun, HexVal, Utf8.Encode, Utf8.IsScalar;
  }

  // ---- String literals ----

  lemma BodyStepReads(p: Piece, raw: string, i: nat, rest: string)
    requires Valid(p) && i <= |raw| && raw[i..] == Spelling(p) + rest
    ensures i < |raw| && BodyStep(raw, i) == Some((BytesOf(p), i + |Spelling(p)|, p == Asterisk))
    ensures raw[i + |Spelling(p)|..] == rest
  {
    var t := Spelling(p);
    assert raw[i] == raw[i..][0] == t[0];
    assert raw[i + |t|..] == raw[i..][|t|..] == rest;
    if !p.Raw? {
      EscapeFollows(p, raw, i, rest);
      hide DecodeEscape, Worth, Spelling;
      if !p.Asterisk? {
        EscapeReads(p, raw, i + 1, rest, false);
      }
    }
  }

  /** An escape stands behind its backslash. */
  lemma EscapeFollows(p: Piece, raw: string, i: nat, rest: string)
    requires !p.Raw? && i <= |raw| && raw[i..] == Spelling(p) + rest
    ensures i + 1 < |raw| && raw[i] == '\\' && raw[i + 1..] == Escaped(p) + rest
    ensures raw[i + 1] == '*' <==> p.Asterisk? || p == Letter('*')
  {
    var t := Escaped(p);
    assert Spelling(p) == ['\\'] + t;
    assert raw[i] == raw[i..][0] == '\\' && raw[i + 1..] == raw[i..][1..] == t + rest;
    assert raw[i + 1] == raw[i + 1..][0] == t[0];
  }

  /** Any pieces decode to their bytes. */
  lemma {:induction false} PiecesDecode(ps: seq<Piece>, raw: string, i: nat)
    requires AllValid(ps) && i <= |raw| && raw[i..] == TextOf(ps)
    ensures Unquote(raw, i) == Some((ValueOf(ps), Starred(ps)))
    decreases |ps|
  {
    hide BodyStep, Spelling, Valid, BytesOf;
    if ps != [] {
      BodyStepReads(ps[0], raw, i, TextOf(ps[1..]));
      PiecesDecode(ps[1..], raw, i + |Spelling(ps[0])|);
      FirstStar(ps);
    }
  }

  lemma FirstStar(ps: seq<Piece>)
    requires ps != []
    ensures Starred(ps) <==> ps[0] == Asterisk || Starred(ps[1..])
  {
    assert forall i :: 1 <= i < |ps| ==> ps[i] == ps[1..][i - 1];
  }

  predicate NoQuote(ps: seq<Piece>) {
    forall i :: 0 <= i < |ps| ==> ps[i] != Raw('"')
  }

  /** Pieces without a bare quote end where the closing quote is put. */
  lemma {:induction false} PiecesClosed(ps: seq<Piece>, body: string, i: nat, rest: string)
    requires AllValid(ps) && NoQuote(ps) && i <= |body| && body[i..] == TextOf(ps) + ("\"" + rest)
    ensures CloseQuote(body, i) == i + |TextOf(ps)|
    decreases |ps|
  {
    hide *;
    if ps == [] {
      NoPieces();
      assert "" + ("\"" + rest) == "\"" + rest;
      QuoteHere(body, i, rest);
    } else {
      var t, k := Spelling(ps[0]), TextOf(ps[1..]) + ("\"" + rest);
      FirstPiece(ps);
      Regroup(t, TextOf(ps[1..]), "\"" + rest);
      PieceSkipped(ps[0], body, i, k);
      Behind(body, i, t, k);
      PiecesClosed(ps[1..], body, i + |t|, rest);
    }
  }

  lemma NoPieces()
    ensures TextOf([]) == ""
  {
  }

  lemma FirstPiece(ps: seq<Piece>)
    requires ps != [] && AllValid(ps) && NoQuote(ps)
    ensures TextOf(ps) == Spelling(ps[0]) + TextOf(ps[1..]) && Valid(ps[0]) && ps[0] != Raw('"')
    ensures AllValid(ps[1..]) && NoQuote(ps[1..])
  {
    hide Spelling, Valid;
  }

  lemma Regroup(a: string, b: string, c: string)
    ensures a + b + c == a + (b + c)
  {
  }

  lemma Behind(s: string, i: nat, t: string, k: string)
    requires i <= |s| && s[i..] == t + k
    ensures i + |t| <= |s| && s[i + |t|..] == k
  {
    assert s[i + |t|..] == s[i..][|t|..];
  }

  lemma QuoteHere(body: string, i: nat, rest: string)
    requires i <= |body| && body[i..] == "\"" + rest
    ensures CloseQuote(body, i) == i
  {
    assert body[i] == body[i..][0];
  }

  lemma PieceSkipped(p: Piece, body: string, i: nat, k: string)
    requires Valid(p) && p != Raw('"') && i <= |body| && body[i..] == Spelling(p) + k
    ensures i + |Spelling(p)| <= |body| && CloseQuote(body, i) == CloseQuote(body, i + |Spelling(p)|)
  {
    var t := Spelling(p);
    assert forall j :: 0 <= j < |t| ==> body[i + j] == body[i..][j] == t[j];
    match p {
      case HexByte(h, l) => ScanSkips(body, i + 2, i + 4);
      case Unicode(digits) =>
        assert forall j :: 2 <= j < |t| ==> t[j] == '{' || t[j] == '}' || t[j] in digits;
        ScanSkips(body, i + 2, i + |t|);
      case _ =>
    }
  }

  /** A literal made of any pieces is one token, with the bytes of the pieces as its value. */
  lemma LiteralReads(ps: seq<Piece>, rest: string)
    requires AllValid(ps) && NoQuote(ps)
    ensures LexToken("\"" + (TextOf(ps) + ("\"" + rest))) == (Str(ValueOf(ps), TextOf(ps), Starred(ps)), rest)
  {
    hide *;
    var raw, body := TextOf(ps), TextOf(ps) + ("\"" + rest);
    PiecesClosed(ps, body, 0, rest);
    assert body[0..] == body && body[..|raw|] == raw && body[|raw| + 1..] == rest;
    assert raw[0..] == raw;
    PiecesDecode(ps, raw, 0);
    assert ("\"" + body)[1..] == body;
    QuotedToken("\"" + body);
  }

  /** What is read from an opening quote on. */
  lemma QuotedToken(s: string)
    requires s != "" && s[0] == '"'
    ensures var body := s[1..]; var e := CloseQuote(body, 0);
      LexToken(s) ==
        if e == |body| then (ErrorToken, "")
        else if Unquote(body[..e], 0).None? then (ErrorToken, body[e + 1..])
        else (Str(Unquote(body[..e], 0).value.0, body[..e], Unquote(body[..e], 0).value.1), body[e + 1..])
  {
    hide Unquote, CloseQuote;
  }

  /** There are no other string tokens. */
  lemma LiteralOnly(s: string) returns (ps: seq<Piece>, rest: string)
    requires s != "" && LexToken(s).0.Str?
    ensures AllValid(ps) && NoQuote(ps) && s == "\"" + (TextOf(ps) + ("\"" + rest))
    ensures LexToken(s) == (Str(ValueOf(ps), TextOf(ps), Starred(ps)), rest)
  {
    hide *;
    OnlyQuoted(s);
    QuotedToken(s);
    var body := s[1..];
    var e := CloseQuote(body, 0);
    var raw := body[..e];
    rest := body[e + 1..];
    ps := PiecesOf(body, 0);
    assert raw[0..] == raw;
    assert body == raw + ([body[e]] + rest) && s == [s[0]] + body;
    PiecesDecode(ps, raw, 0);
  }

  lemma OnlyQuoted(s: string)
    requires s != "" && LexToken(s).0.Str?
    ensures s[0] == '"'
  {
    hide DigitSpan, NameSpan, CloseQuote, Unquote, LexString;
  }

  /** The pieces of an accepted literal from a boundary on. */
  lemma {:induction false} PiecesOf(body: string, i: nat) returns (ps: seq<Piece>)
    requires i <= CloseQuote(body, 0) == CloseQuote(body, i) < |body|
    requires Unquote(body[..CloseQuote(body, 0)], i).Some?
    ensures AllValid(ps) && NoQuote(ps) && body[..CloseQuote(body, 0)][i..] == TextOf(ps)
    decreases |body| - i
  {
    hide CloseQuote, BodyStep, Spelling, Valid;
    var e := CloseQuote(body, 0);
    var raw := body[..e];
    ps := [];
    if i < e {
      ScanAgrees(body, i);
      ScanStep(body, i);
      var p := PieceAt(raw, i);
      var q := BodyStep(raw, i).value.1;
      var tail := PiecesOf(body, q);
      ps := [p] + tail;
      assert ps[1..] == tail && raw[i..] == raw[i..q] + raw[q..];
    }
  }

  lemma PieceAt(raw: string, i: nat) returns (p: Piece)
    requires i < |raw| && BodyStep(raw, i).Some? && (raw[i] == '\\' ==> i + 1 < |raw|)
    ensures Valid(p) && raw[i..BodyStep(raw, i).value.1] == Spelling(p)
    ensures p == Raw('"') <==> raw[i] == '"'
  {
    var q := BodyStep(raw, i).value.1;
    if raw[i] != '\\' {
      p := Raw(raw[i]);
    } else if raw[i + 1] == '*' {
      p := Asterisk;
      assert raw[i..i + 2] == "\\*";
    } else {
      p := EscapeOnly(raw, i + 1, false);
      assert raw[i..q] == ['\\'] + raw[i + 1..q];
      assert Spelling(p) == ['\\'] + Escaped(p);
    }
  }

  // ---- Patterns ----

  /** The pieces of patterns: no piece may be the byte that marks wildcards. */
  predicate InPattern(p: Piece) {
    Valid(p) && BytesOf(p) != [0xFF as char]
  }

  /** A bare `*`, or an escape other than `\*` that denotes it, is a wildcard; everything else its bytes. */
  function ElemsOf(p: Piece): seq<Elem>
    requires Valid(p)
  {
    if p == Asterisk then [Lit('*')]
    else if BytesOf(p) == "*" then [Star]
    else Literally(BytesOf(p))
  }

  function Literally(bytes: string): (es: seq<Elem>)
    ensures |es| == |bytes| && forall i :: 0 <= i < |bytes| ==> es[i] == Lit(bytes[i])
  {
    if bytes == "" then [] else [Lit(bytes[0])] + Literally(bytes[1..])
  }

  function AllElems(ps: seq<Piece>): seq<Elem>
    requires AllValid(ps)
  {
    if ps == [] then [] else ElemsOf(ps[0]) + AllElems(ps[1..])
  }

  lemma PatternStepReads(p: Piece, raw: string, i: nat, rest: string)
    requires InPattern(p) && i <= |raw| && raw[i..] == Spelling(p) + rest
    ensures i < |raw| && Step(raw, i) == Some((ElemsOf(p), i + |Spelling(p)|))
    ensures raw[i + |Spelling(p)|..] == rest
  {
    assert raw[i + |Spelling(p)|..] == raw[i..][|Spelling(p)|..] == rest;
    if p.Raw? {
      RawStep(p.c, raw, i, rest);
    } else {
      EscapeFollows(p, raw, i, rest);
      if !p.Asterisk? {
        EscapeStep(p, raw, i, rest);
      }
    }
    hide BytesOf, DecodeEscape, Worth;
  }

  lemma RawStep(c: char, raw: string, i: nat, rest: string)
    requires InPattern(Raw(c)) && i <= |raw| && raw[i..] == Spelling(Raw(c)) + rest
    ensures i < |raw| && Step(raw, i) == Some((ElemsOf(Raw(c)), i + 1))
  {
    hide DecodeEscape;
    assert raw[i] == raw[i..][0] == c && BytesOf(Raw(c)) == [c];
    assert Literally([c]) == [Lit(c)];
  }

  lemma EscapeStep(p: Piece, raw: string, i: nat, rest: string)
    requires InPattern(p) && !p.Raw? && !p.Asterisk? && i + 1 < |raw|
    requires raw[i] == '\\' && raw[i + 1] != '*' && raw[i + 1..] == Escaped(p) + rest
    ensures Step(raw, i) == Some((ElemsOf(p), i + |Spelling(p)|))
  {
    hide BytesOf, DecodeEscape, Worth, Valid, Spelling, Escaped;
    EscapeReads(p, raw, i + 1, rest, true);
    assert Literally(BytesOf(p)) == Lits(BytesOf(p));
  }

  /** Any such pieces are a pattern, and mean the elements of the pieces. */
  lemma {:induction false} PatternReads(ps: seq<Piece>, raw: string, i: nat)
    requires AllValid(ps) && (forall j :: 0 <= j < |ps| ==> InPattern(ps[j])) && i <= |raw| && raw[i..] == TextOf(ps)
    ensures Elems(raw, i) == Some(AllElems(ps))
    decreases |ps|
  {
    hide Step, Spelling, Valid, BytesOf, ElemsOf;
    if ps != [] {
      assert InPattern(ps[0]);
      PatternStepReads(ps[0], raw, i, TextOf(ps[1..]));
      PatternReads(ps[1..], raw, i + |Spelling(ps[0])|);
    }
  }

  /** There are no other patterns. */
  lemma {:induction false} PatternOnly(raw: string, i: nat) returns (ps: seq<Piece>)
    requires i <= |raw| && Elems(raw, i).Some?
    ensures AllValid(ps) && (forall j :: 0 <= j < |ps| ==> InPattern(ps[j])) && raw[i..] == TextOf(ps)
    decreases |raw| - i
  {
    hide Step, Spelling, InPattern, Valid;
    ps := [];
    if i < |raw| {
      var p := PatternPiece(raw, i);
      var q := Step(raw, i).value.1;
      var tail := PatternOnly(raw, q);
      ps := [p] + tail;
      PatternValid(p);
      assert ps[1..] == tail && raw[i..] == raw[i..q] + raw[q..];
    }
  }

  lemma PatternValid(p: Piece)
    requires InPattern(p)
    ensures Valid(p)
  {
  }

  lemma PatternPiece(raw: string, i: nat) returns (p: Piece)
    requires i < |raw| && Step(raw, i).Some?
    ensures InPattern(p) && raw[i..Step(raw, i).value.1] == Spelling(p)
  {
    var q := Step(raw, i).value.1;
    if raw[i] != '\\' {
      p := Raw(raw[i]);
    } else if raw[i + 1] == '*' {
      p := Asterisk;
      assert raw[i..i + 2] == "\\*";
    } else {
      p := EscapeOnly(raw, i + 1, true);
      assert raw[i..q] == ['\\'] + raw[i + 1..q];
      assert Spelling(p) == ['\\'] + Escaped(p);
    }
  }
}
