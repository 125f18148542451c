/**
 * From expressions to policy text and back: the tokens of a printed expression, written out with
 * spaces between them, are tokenized and parsed to the same expression.
 */
module Rendering {
  import opened Common
  import opened Digits
  import opened Lexer
  import opened Scanner
  import opened Syntax
  import Grammar
  import Pattern
  import Printer
  import RoundTrip

  // ---- Tokens as text ----

  function OperText(op: Op): string {
    match op
    case Eq => "=="
    case Ne => "!="
    case And => "&&"
    case Or => "||"
    case In => "in"
    case Lt => "<"
    case Gt => ">"
    case Le => "<="
    case Ge => ">="
    case Plus => "+"
    case Minus => "-"
    case Mul => "*"
  }

  function VarText(v: Var): string {
    match v
    case Principal => "principal"
    case Action => "action"
    case Resource => "resource"
    case Context => "context"
  }

  function KindText(kind: ExtKind): string {
    match kind
    case IpKind => "ip"
    case DecimalKind => "decimal"
    case DatetimeKind => "datetime"
    case DurationKind => "duration"
  }

  /** In the place of a name, an extension keyword is the name it is spelled like. */
  lemma KindName(kind: ExtKind)
    ensures Grammar.IdentName(KwExt(kind)) == Some(Text(KwExt(kind)))
  {
  }

  function Text(t: Token): string {
    match t
    case KwPermit => "permit"
    case KwForbid => "forbid"
    case KwWhen => "when"
    case KwUnless => "unless"
    case KwVar(v) => VarText(v)
    case KwTrue => "true"
    case KwFalse => "false"
    case KwIf => "if"
    case KwThen => "then"
    case KwElse => "else"
    case KwHas => "has"
    case KwLike => "like"
    case KwIs => "is"
    case KwExt(kind) => KindText(kind)
    case Oper(op) => OperText(op)
    case Bang => "!"
    case Dot => "."
    case Comma => ","
    case Semicolon => ";"
    case LParen => "("
    case RParen => ")"
    case LBrace => "{"
    case RBrace => "}"
    case LBracket => "["
    case RBracket => "]"
    case ColonColon => "::"
    case Colon => ":"
    case At => "@"
    case Str(_, raw, _) => "\"" + raw + "\""
    case Number(digits) => digits
    case Ident(name) => name
    case Eof => ""
    case ErrorToken => ""
  }

  /** Tokens that a text can have: their parts are what the tokenizer would put there. */
  predicate Renderable(t: Token) {
    match t
    case Str(value, raw, star) => Closed(raw) && Unquote(raw, 0) == Some((value, star))
    case Number(digits) => digits != ""
    case Ident(name) => IsName(name) && Keyword(name).None?
    case Eof => false
    case ErrorToken => false
    case _ => true
  }

  predicate AllRenderable(ts: seq<Token>) {
    forall i :: 0 <= i < |ts| ==> Renderable(ts[i])
  }

  /** The tokens, each followed by a space. */
  function Render(ts: seq<Token>): string {
    if ts == [] then "" else Text(ts[0]) + (" " + Render(ts[1..]))
  }

  // ---- Tokenizing rendered tokens ----

  lemma NameLexed(name: string, rest: string)
    requires IsName(name)
    ensures LexToken(name + (" " + rest)) == (NameToken(name), " " + rest)
  {
    var s := name + (" " + rest);
    var q := NameSpan(s, 0);
    assert s[..|name|] == name && s[|name|..] == " " + rest && s[|name|] == ' ';
    assert forall i :: 0 <= i < |name| ==> s[i] == name[i];
    assert q == |name|;
    assert !IsDigit(s[0]) && s[0] != '"';
  }

  lemma NumberLexed(digits: DigitString, rest: string)
    requires digits != ""
    ensures LexToken(digits + (" " + rest)) == (Number(digits), " " + rest)
  {
    var s := digits + (" " + rest);
    assert s[0..|digits|] == digits && s[|digits|..] == " " + rest && s[|digits|] == ' ';
    DigitSpanIs(s, 0, |digits|);
    assert s[0] == digits[0];
  }

  lemma StringLexed(t: Token, rest: string)
    requires t.Str? && Renderable(t)
    ensures LexToken(Text(t) + (" " + rest)) == (t, " " + rest)
  {
    hide Closed, Unquote;
    var s := Text(t) + (" " + rest);
    assert s[1..] == t.raw + ("\"" + (" " + rest));
    LexClosed(t.raw, " " + rest);
  }

  /** The tokens that are spelled like names. */
  predicate IsWord(t: Token) {
    match t
    case KwPermit => true
    case KwForbid => true
    case KwWhen => true
    case KwUnless => true
    case KwVar(_) => true
    case KwTrue => true
    case KwFalse => true
    case KwIf => true
    case KwThen => true
    case KwElse => true
    case KwHas => true
    case KwLike => true
    case KwIs => true
    case KwExt(_) => true
    case Oper(op) => op == In
    case Ident(_) => true
    case _ => false
  }

  lemma WordIsName(t: Token)
    requires IsWord(t) && Renderable(t)
    ensures IsName(Text(t))
  {
    hide Keyword, NameToken;
    match t {
      case KwVar(v) =>
        VarIsName(v);
        hide IsName, VarText;
      case KwExt(kind) =>
        ExtIsName(kind);
        hide IsName, KindText;
      case Ident(_) =>
      case _ =>
        hide VarText, KindText;
    }
  }

  lemma VarIsName(v: Var)
    ensures IsName(VarText(v))
  {
  }

  lemma ExtIsName(kind: ExtKind)
    ensures IsName(KindText(kind))
  {
  }

  lemma VarKeyword(v: Var)
    ensures NameToken(VarText(v)) == KwVar(v)
  {
  }

  lemma ExtKeyword(kind: ExtKind)
    ensures NameToken(KindText(kind)) == KwExt(kind)
  {
  }

  /** The keyword table, read backwards. */
  lemma WordLexed(t: Token)
    requires IsWord(t) && Renderable(t)
    ensures NameToken(Text(t)) == t
  {
    hide IsName, VarText, KindText, OperText, Keyword, NameToken;
    match t {
      case KwVar(v) => VarKeyword(v);
      case KwExt(kind) => ExtKeyword(kind);
      case Ident(name) => IdentLexed(name);
      case _ => PlainKeyword(t);
    }
  }

  lemma IdentLexed(name: string)
    requires Keyword(name).None?
    ensures NameToken(name) == Ident(name)
  {
    hide Keyword;
  }

  lemma PlainKeyword(t: Token)
    requires IsWord(t) && !t.KwVar? && !t.KwExt? && !t.Ident?
    ensures NameToken(Text(t)) == t
  {
    assert OperText(In) == "in";
    hide VarText, KindText, OperText;
  }

  lemma SymbolLexed(t: Token, rest: string)
    requires !IsWord(t) && !t.Str? && !t.Number? && Renderable(t)
    ensures LexToken(Text(t) + (" " + rest)) == (t, " " + rest)
  {
    var s := Text(t) + (" " + rest);
    SymbolText(t);
    if |Text(t)| == 2 {
      hide Text, OneChar, TwoChars, Renderable;
      assert s[0] == Text(t)[0] && s[1] == Text(t)[1] && s[2..] == " " + rest;
    } else {
      NoSymbolWithSpace(Text(t)[0]);
      hide Text, OneChar, TwoChars, Renderable;
      assert s[0] == Text(t)[0] && s[1] == ' ' && s[1..] == " " + rest;
    }
  }

  /** A symbol has one or two characters, none of them one that begins another kind of token. */
  lemma SymbolText(t: Token)
    requires !IsWord(t) && !t.Str? && !t.Number? && Renderable(t)
    ensures |Text(t)| == 1 || |Text(t)| == 2
    ensures Text(t)[0] != '"' && !IsDigit(Text(t)[0]) && !IsNameStart(Text(t)[0])
    ensures |Text(t)| == 1 ==> OneChar(Text(t)[0]) == t
    ensures |Text(t)| == 2 ==> TwoChars(Text(t)[0], Text(t)[1]) == Some(t)
  {
  }

  lemma NoSymbolWithSpace(c: char)
    ensures TwoChars(c, ' ') == None
  {
  }

  lemma TokenLexed(t: Token, rest: string)
    requires Renderable(t)
    ensures Text(t) != "" && LexToken(Text(t) + (" " + rest)) == (t, " " + rest)
    ensures !IsSpace(Text(t)[0]) && Text(t)[0] != '/'
  {
    if IsWord(t) {
      WordIsName(t);
      WordLexed(t);
      NameLexed(Text(t), rest);
    } else if t.Str? {
      StringLexed(t, rest);
    } else if t.Number? {
      NumberLexed(t.digits, rest);
    } else {
      SymbolLexed(t, rest);
    }
  }

  /** Tokenizing undoes rendering. */
  lemma {:induction false} LexRendered(ts: seq<Token>)
    requires AllRenderable(ts)
    ensures Lex(Render(ts)) == ts
    decreases |ts|
  {
    hide Text, LexToken, Renderable;
    if ts != [] {
      var t, rest := ts[0], Render(ts[1..]);
      TokenLexed(t, rest);
      var s := Text(t) + (" " + rest);
      assert s[0] == Text(t)[0] && Trim(s) == s;
      LexRendered(ts[1..]);
      assert (" " + rest)[1..] == rest;
      assert Trim(" " + rest) == Trim(rest);
      LexTrimmed(" " + rest, rest);
      assert ts == [t] + ts[1..];
    }
  }

  lemma LexTrimmed(s: string, t: string)
    requires Trim(s) == Trim(t)
    ensures Lex(s) == Lex(t)
  {
  }

  // ---- Printed expressions can be rendered ----

  lemma StrRenderable(s: string)
    ensures Renderable(Printer.StrToken(s))
  {
    QuoteScan("", s);
    QuoteDecodes("", s);
    assert "" + Quote(s) == Quote(s);
  }

  lemma SpelledByteScan(done: string, c: char, rest: string)
    ensures CloseQuote(done + Pattern.SpellByte(c) + rest, |done|)
         == CloseQuote(done + Pattern.SpellByte(c) + rest, |done + Pattern.SpellByte(c)|)
  {
    var b, t := Pattern.SpellByte(c), done + Pattern.SpellByte(c) + rest;
    assert t[|done|] == b[0] && (|b| == 2 ==> t[|done| + 1] == b[1]);
  }

  lemma {:induction false} SpellScan(done: string, s: string)
    ensures CloseQuote(done + Pattern.Spell(s) + "\"", |done|) == |done + Pattern.Spell(s)|
    decreases |s|
  {
    hide Pattern.SpellByte;
    if s == "" {
      assert done + Pattern.Spell(s) == done;
    } else {
      var b, k := Pattern.SpellByte(s[0]), Pattern.Spell(s[1..]);
      SpellScan(done + b, s[1..]);
      assert done + Pattern.Spell(s) == done + b + k;
      SpelledByteScan(done, s[0], k + "\"");
      assert done + Pattern.Spell(s) + "\"" == done + b + (k + "\"");
    }
  }

  lemma SpelledByteDecodes(raw: string, p: nat, c: char)
    requires p + |Pattern.SpellByte(c)| <= |raw| && raw[p..p + |Pattern.SpellByte(c)|] == Pattern.SpellByte(c)
    ensures BodyStep(raw, p).Some? && BodyStep(raw, p).value.1 == p + |Pattern.SpellByte(c)|
  {
    var b := Pattern.SpellByte(c);
    assert raw[p] == b[0] && (|b| == 2 ==> raw[p + 1] == b[1]);
  }

  lemma {:induction false} SpellDecodes(done: string, s: string)
    ensures Unquote(done + Pattern.Spell(s), |done|).Some?
    decreases |s|
  {
    hide Pattern.SpellByte, BodyStep;
    if s == "" {
      assert done + Pattern.Spell(s) == done;
    } else {
      var b, raw := Pattern.SpellByte(s[0]), done + Pattern.Spell(s);
      SpellDecodes(done + b, s[1..]);
      assert raw == done + b + Pattern.Spell(s[1..]);
      assert raw[|done|..|done| + |b|] == b;
      SpelledByteDecodes(raw, |done|, s[0]);
      assert |done + b| == |done| + |b|;
    }
  }

  lemma PatternRenderable(pattern: string)
    ensures Renderable(Printer.PatternToken(pattern))
  {
    SpellScan("", pattern);
    SpellDecodes("", pattern);
    assert "" + Pattern.Spell(pattern) == Pattern.Spell(pattern);
  }

  lemma NameRenderable(name: string)
    requires Printer.IsPlainName(name)
    ensures Renderable(NameToken(name))
  {
  }

  lemma KeyRenderable(key: string)
    ensures Renderable(Printer.KeyToken(key))
  {
    StrRenderable(key);
    hide Renderable;
    if Printer.IsPlainName(key) {
      NameRenderable(key);
    }
  }

  lemma {:induction false} TypeRenderable(parts: seq<string>, k: seq<Token>)
    requires |parts| > 0 && AllRenderable(k)
    requires forall i :: 0 <= i < |parts| ==> IsName(parts[i]) && Keyword(parts[i]).None?
    ensures AllRenderable(Printer.TypeTokens(parts, k))
    decreases |parts|
  {
    hide IsName, Keyword;
    if |parts| > 1 {
      TypeRenderable(parts[1..], k);
    }
  }

  lemma OneMore(t: Token, k: seq<Token>)
    requires Renderable(t) && AllRenderable(k)
    ensures AllRenderable([t] + k)
  {
    hide Renderable;
  }

  lemma AttrRenderable(attr: string, k: seq<Token>)
    requires AllRenderable(k)
    ensures AllRenderable(Printer.AttrTokens(attr, k))
  {
    StrRenderable(attr);
    if Printer.IsPlainName(attr) {
      NameRenderable(attr);
    }
    hide Printer.StrToken, NameToken, Printer.IsPlainName;
  }

  lemma CalleeRenderable(callee: string, k: seq<Token>)
    requires Printer.IsPlainName(callee) && AllRenderable(k)
    ensures AllRenderable(Printer.CallTokens(callee, k))
  {
    NameRenderable(callee);
    hide NameToken, Printer.IsPlainName;
  }

  lemma {:induction false} PrintRenderable(n: Node, l: nat, k: seq<Token>)
    requires RoundTrip.WellFormed(n) && AllRenderable(k)
    ensures AllRenderable(Printer.Print(n, l, k))
    decreases n, 2
  {
    RawRenderable(n, k);
    RawRenderable(n, [RParen] + k);
  }

  lemma {:induction false} RawRenderable(n: Node, k: seq<Token>)
    requires RoundTrip.WellFormed(n) && AllRenderable(k)
    ensures AllRenderable(Printer.Raw(n, k))
    decreases n, 1
  {
    hide AllRenderable, RoundTrip.WellFormed, Printer.Raw;
    match n {
      case SetLit(_) => SetRenderable(n, k);
      case RecordLit(_) => RecordRenderable(n, k);
      case GetAttr(_, _) => AccessRenderable(n, k);
      case Call(_, _, _) => CallRenderable(n, k);
      case Bin(_, _, _) => BinRenderable(n, k);
      case Not(_) => UnaryRenderable(n, k);
      case Neg(_) => UnaryRenderable(n, k);
      case Has(_, _) => HasRenderable(n, k);
      case Like(_, _) => HasRenderable(n, k);
      case If(_, _, _) => IfRenderable(n, k);
      case Is(_, _, _) => IsRenderable(n, k);
      case _ => LeafRenderable(n, k);
    }
  }

  lemma LeafRenderable(n: Node, k: seq<Token>)
    requires n.BoolLit? || n.StrLit? || n.LongLit? || n.EntityRef? || n.VarRef? || n.ExtLit?
    requires RoundTrip.WellFormed(n) && AllRenderable(k)
    ensures AllRenderable(Printer.Raw(n, k))
  {
    hide Printer.StrToken, Printer.TypeTokens, Printer.Segments, Keyword, IsName, Closed, Unquote;
    match n {
      case StrLit(s) =>
        StrRenderable(s);
      case EntityRef(ty, id) =>
        StrRenderable(id);
        TypeRenderable(Printer.Segments(ty), [ColonColon] + ([Printer.StrToken(id)] + k));
      case ExtLit(kind, text) =>
        StrRenderable(text);
      case _ =>
    }
  }

  lemma {:induction false} SetRenderable(n: Node, k: seq<Token>)
    requires n.SetLit? && RoundTrip.WellFormed(n) && AllRenderable(k)
    ensures AllRenderable(Printer.Raw(n, k))
    decreases n, 0
  {
    hide Printer.Print, Printer.PrintElts;
    if n.elts != [] {
      EltsRenderable(n.elts[1..], [RBracket] + k);
      PrintRenderable(n.elts[0], Printer.EXPR, Printer.PrintElts(n.elts[1..], [RBracket] + k));
    }
  }

  lemma {:induction false} RecordRenderable(n: Node, k: seq<Token>)
    requires n.RecordLit? && RoundTrip.WellFormed(n) && AllRenderable(k)
    ensures AllRenderable(Printer.Raw(n, k))
    decreases n, 0
  {
    hide Printer.PrintEntries;
    if n.entries != [] {
      EntriesRenderable(n.entries, [RBrace] + k);
    }
  }

  lemma {:induction false} AccessRenderable(n: Node, k: seq<Token>)
    requires n.GetAttr? && RoundTrip.WellFormed(n) && AllRenderable(k)
    ensures AllRenderable(Printer.Raw(n, k))
    decreases n, 0
  {
    hide Printer.Print, Printer.AttrTokens, AllRenderable;
    AttrRenderable(n.attr, k);
    PrintRenderable(n.obj, Printer.MEMBER, Printer.AttrTokens(n.attr, k));
  }

  lemma {:induction false} BinRenderable(n: Node, k: seq<Token>)
    requires n.Bin? && RoundTrip.WellFormed(n) && AllRenderable(k)
    ensures AllRenderable(Printer.Raw(n, k))
    decreases n, 0
  {
    hide Printer.Print, Printer.OpLevel;
    var l := Printer.OpLevel(n.op);
    PrintRenderable(n.right, l + 1, k);
    PrintRenderable(n.left, if l == Printer.REL then Printer.ADD else l, [Oper(n.op)] + Printer.Print(n.right, l + 1, k));
  }

  lemma {:induction false} UnaryRenderable(n: Node, k: seq<Token>)
    requires (n.Not? || n.Neg?) && RoundTrip.WellFormed(n) && AllRenderable(k)
    ensures AllRenderable(Printer.Raw(n, k))
    decreases n, 0
  {
    hide Printer.Print, Printer.StartsWithNumber;
    if n.Not? {
      PrintRenderable(n.operand, Printer.UNARY, k);
    } else {
      PrintRenderable(n.operand, if Printer.StartsWithNumber(n.operand) then Printer.MEMBER + 1 else Printer.UNARY, k);
    }
  }

  lemma {:induction false} HasRenderable(n: Node, k: seq<Token>)
    requires (n.Has? || n.Like?) && RoundTrip.WellFormed(n) && AllRenderable(k)
    ensures AllRenderable(Printer.Raw(n, k))
    decreases n, 0
  {
    hide Printer.Print, Printer.KeyToken, Printer.PatternToken, Closed, Unquote, IsName, Keyword;
    if n.Has? {
      KeyRenderable(n.attr);
      PrintRenderable(n.obj, Printer.ADD, [KwHas] + ([Printer.KeyToken(n.attr)] + k));
    } else {
      PatternRenderable(n.pattern);
      PrintRenderable(n.obj, Printer.ADD, [KwLike] + ([Printer.PatternToken(n.pattern)] + k));
    }
  }

  lemma {:induction false} IfRenderable(n: Node, k: seq<Token>)
    requires n.If? && RoundTrip.WellFormed(n) && AllRenderable(k)
    ensures AllRenderable(Printer.Raw(n, k))
    decreases n, 0
  {
    hide Printer.Print;
    PrintRenderable(n.els, Printer.EXPR, k);
    var kb := [KwElse] + Printer.Print(n.els, Printer.EXPR, k);
    PrintRenderable(n.thn, Printer.EXPR, kb);
    PrintRenderable(n.cond, Printer.EXPR, [KwThen] + Printer.Print(n.thn, Printer.EXPR, kb));
  }

  lemma {:induction false} IsRenderable(n: Node, k: seq<Token>)
    requires n.Is? && RoundTrip.WellFormed(n) && AllRenderable(k)
    ensures AllRenderable(Printer.Raw(n, k))
    decreases n, 0
  {
    hide Printer.Print, Printer.TypeTokens, Printer.Segments, IsName, Keyword;
    if n.inEntity.Some? {
      PrintRenderable(n.inEntity.value, Printer.ADD, k);
    }
    var k' := Printer.PrintIn(n.inEntity, k);
    TypeRenderable(Printer.Segments(n.ty), k');
    PrintRenderable(n.obj, Printer.ADD, [KwIs] + Printer.TypeTokens(Printer.Segments(n.ty), k'));
  }

  lemma {:induction false} CallRenderable(n: Node, k: seq<Token>)
    requires n.Call? && RoundTrip.WellFormed(n) && AllRenderable(k)
    ensures AllRenderable(Printer.Raw(n, k))
    decreases n, 0
  {
    hide Printer.Print, Printer.CallTokens, Printer.IsPlainName, IsName, Keyword;
    if n.arg.Some? {
      PrintRenderable(n.arg.value, Printer.EXPR, [RParen] + k);
    }
    CalleeRenderable(n.callee, Printer.PrintArg(n.arg, [RParen] + k));
    PrintRenderable(n.obj, Printer.MEMBER, Printer.CallTokens(n.callee, Printer.PrintArg(n.arg, [RParen] + k)));
  }

  lemma {:induction false} EltsRenderable(elts: seq<Node>, k: seq<Token>)
    requires AllRenderable(k) && forall i :: 0 <= i < |elts| ==> RoundTrip.WellFormed(elts[i])
    ensures AllRenderable(Printer.PrintElts(elts, k))
    decreases elts, 0
  {
    hide RoundTrip.WellFormed, Printer.Print;
    if elts != [] {
      EltsRenderable(elts[1..], k);
      PrintRenderable(elts[0], Printer.EXPR, Printer.PrintElts(elts[1..], k));
    }
  }

  lemma {:induction false} EntriesRenderable(entries: seq<Entry>, k: seq<Token>)
    requires entries != [] && AllRenderable(k) && forall i :: 0 <= i < |entries| ==> RoundTrip.WellFormed(entries[i].value)
    ensures AllRenderable(Printer.PrintEntries(entries, k))
    decreases entries, 0
  {
    hide RoundTrip.WellFormed, Printer.Print, Printer.KeyToken;
    KeyRenderable(entries[0].key);
    if |entries| > 1 {
      EntriesRenderable(entries[1..], k);
      PrintRenderable(entries[0].value, Printer.EXPR, [Comma] + Printer.PrintEntries(entries[1..], k));
    } else {
      PrintRenderable(entries[0].value, Printer.EXPR, k);
    }
  }

  /** The text of an expression. */
  function Source(n: Node): string {
    Render(Printer.Print(n, Printer.EXPR, []))
  }

  /** Tokenizing and parsing the text of an expression gives the expression back. */
  lemma TextRoundTrip(n: Node)
    requires RoundTrip.WellFormed(n)
    ensures Grammar.ParseExpr(Lex(Source(n)), 0, 0) ==
      if RoundTrip.Fits(n, Printer.EXPR, 0, 0) then Some((n, [])) else None
  {
    PrintRenderable(n, Printer.EXPR, []);
    LexRendered(Printer.Print(n, Printer.EXPR, []));
    RoundTrip.ParsePrint(n, [], 0, 0);
  }
}
