/**
 * Printing an expression back to tokens, with parentheses only where the grammar needs them.
 * Printers take the tokens that follow, `k`, so that no concatenation is ever nested to the left.
 */
module Printer {
  import opened Common
  import opened Digits
  import opened Syntax
  import opened Grammar
  import Lexer
  import Pattern

  // Precedence levels, loosest first.
  const EXPR: nat := 0
  const OR: nat := 1
  const AND: nat := 2
  const REL: nat := 3
  const ADD: nat := 4
  const MUL: nat := 5
  const UNARY: nat := 6
  const MEMBER: nat := 7

  function OpLevel(op: Op): (l: nat)
    ensures OR <= l <= MUL
  {
    match op
    case Or => OR
    case And => AND
    case Plus => ADD
    case Minus => ADD
    case Mul => MUL
    case _ => REL
  }

  /** The loosest level whose parser returns the node without parentheses. */
  function NodeLevel(n: Node): (l: nat)
    ensures l <= MEMBER
    ensures l == EXPR <==> n.If?
  {
    match n
    case If(_, _, _) => EXPR
    case Bin(op, _, _) => OpLevel(op)
    case Has(_, _) => REL
    case Like(_, _) => REL
    case Is(_, _, _) => REL
    case Not(_) => UNARY
    case Neg(_) => UNARY
    case LongLit(n) => if n < 0 then UNARY else MEMBER
    case _ => MEMBER
  }

  /** A leading number would be folded into the minus sign of a negation. */
  predicate StartsWithNumber(n: Node) {
    match n
    case LongLit(i) => 0 <= i
    case GetAttr(obj, _) => NodeLevel(obj) >= MEMBER && StartsWithNumber(obj)
    case Call(obj, _, _) => NodeLevel(obj) >= MEMBER && StartsWithNumber(obj)
    case _ => false
  }

  function StrToken(s: string): Token {
    Str(s, Lexer.Quote(s), false)
  }

  /** The token of a pattern: its raw text, and what the lexer makes of that text. */
  function PatternToken(pattern: string): Token {
    var raw := Pattern.Spell(pattern);
    match Lexer.Unquote(raw, 0)
    case Some((value, star)) => Str(value, raw, star)
    case None => Str("", raw, false)
  }

  /** Names that can be written without quotes: identifiers, and the extension keywords. */
  predicate IsPlainName(name: string) {
    Lexer.IsName(name) && IdentName(Lexer.NameToken(name)) == Some(name)
  }

  function AttrTokens(attr: string, k: Toks): Toks {
    if IsPlainName(attr) then [Dot] + ([Lexer.NameToken(attr)] + k)
    else [LBracket] + ([StrToken(attr)] + ([RBracket] + k))
  }

  function CallTokens(callee: string, k: Toks): Toks {
    [Dot] + ([Lexer.NameToken(callee)] + ([LParen] + k))
  }

  function KeyToken(key: string): Token {
    if IsPlainName(key) then Lexer.NameToken(key) else StrToken(key)
  }

  /** The segments of a `::`-joined type name. */
  function Segments(ty: string): (parts: seq<string>)
    ensures |parts| > 0
    decreases |ty|
  {
    if ty == "" then [""]
    else if |ty| >= 2 && ty[..2] == "::" then [""] + Segments(ty[2..])
    else
      var parts := Segments(ty[1..]);
      [[ty[0]] + parts[0]] + parts[1..]
  }

  function TypeTokens(parts: seq<string>, k: Toks): Toks
    requires |parts| > 0
  {
    if |parts| == 1 then [Ident(parts[0])] + k
    else [Ident(parts[0])] + ([ColonColon] + TypeTokens(parts[1..], k))
  }

  /** The tokens of n at level l, followed by k. */
  function Print(n: Node, l: nat, k: Toks): Toks
    decreases n, 1
  {
    if NodeLevel(n) >= l then Raw(n, k) else [LParen] + Raw(n, [RParen] + k)
  }

  /** The tokens of n at its own level, followed by k. */
  function Raw(n: Node, k: Toks): Toks
    decreases n, 0
  {
    match n
    case BoolLit(b) => [if b then KwTrue else KwFalse] + k
    case StrLit(s) => [StrToken(s)] + k
    case LongLit(i) =>
      if 0 <= i then [Number(ShowNat(i))] + k else [Oper(Minus)] + ([Number(ShowNat(-i))] + k)
    case EntityRef(ty, id) => TypeTokens(Segments(ty), [ColonColon] + ([StrToken(id)] + k))
    case SetLit(elts) =>
      if elts == [] then [LBracket] + ([RBracket] + k)
      else [LBracket] + Print(elts[0], EXPR, PrintElts(elts[1..], [RBracket] + k))
    case VarRef(v) => [KwVar(v)] + k
    case GetAttr(obj, attr) => Print(obj, MEMBER, AttrTokens(attr, k))
    case Call(obj, callee, arg) =>
      Print(obj, MEMBER, CallTokens(callee, PrintArg(arg, [RParen] + k)))
    case Bin(op, left, right) =>
      Print(left, if OpLevel(op) == REL then ADD else OpLevel(op), [Oper(op)] + Print(right, OpLevel(op) + 1, k))
    case Not(e) => [Bang] + Print(e, UNARY, k)
    case Neg(e) => [Oper(Minus)] + Print(e, if StartsWithNumber(e) then MEMBER + 1 else UNARY, k)
    case Has(obj, attr) => Print(obj, ADD, [KwHas] + ([KeyToken(attr)] + k))
    case Like(obj, pattern) => Print(obj, ADD, [KwLike] + ([PatternToken(pattern)] + k))
    case If(c, a, b) => [KwIf] + Print(c, EXPR, [KwThen] + Print(a, EXPR, [KwElse] + Print(b, EXPR, k)))
    case ExtLit(kind, text) => [KwExt(kind)] + ([LParen] + ([StrToken(text)] + ([RParen] + k)))
    case Is(obj, ty, inEntity) => Print(obj, ADD, [KwIs] + TypeTokens(Segments(ty), PrintIn(inEntity, k)))
    case RecordLit(entries) =>
      if entries == [] then [LBrace] + ([RBrace] + k)
      else [LBrace] + PrintEntries(entries, [RBrace] + k)
  }

  function PrintArg(arg: Option<Node>, k: Toks): Toks
    decreases arg, 0
  {
    match arg
    case None => k
    case Some(e) => Print(e, EXPR, k)
  }

  function PrintIn(inEntity: Option<Node>, k: Toks): Toks
    decreases inEntity, 0
  {
    match inEntity
    case None => k
    case Some(e) => [Oper(In)] + Print(e, ADD, k)
  }

  function PrintElts(elts: seq<Node>, k: Toks): Toks
    decreases elts, 0
  {
    if elts == [] then k else [Comma] + Print(elts[0], EXPR, PrintElts(elts[1..], k))
  }

  function PrintEntries(entries: seq<Entry>, k: Toks): Toks
    requires entries != []
    decreases entries, 0
  {
    [KeyToken(entries[0].key)] + ([Colon] +
    Print(entries[0].value, EXPR, if |entries| == 1 then k else [Comma] + PrintEntries(entries[1..], k)))
  }
}
