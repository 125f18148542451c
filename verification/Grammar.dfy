/**
 * What the recursive-descent expression parser computes, as functions on the tokens still to come:
 * the node and the rest, or None when the source sets its error flag. The source raises that flag as
 * soon as an error token becomes the lookahead, so Advance fails there. `depth` and `recDepth` are
 * the two nesting counters on entry. The imperative parser is proved against these functions.
 */
module Grammar {
  import opened Common
  import opened Digits
  import opened Syntax
  import Pattern

  const MAX_PARSE_DEPTH := 64
  const MAX_SET_ELEMENTS := 256
  const MAX_TYPE_PARTS := 16
  const MAX_RECORD_ENTRIES := 64
  const MAX_RECORD_DEPTH := 16
  const MAX_MEMBER_CHAIN := 16
  const MAX_BINOP_CHAIN := 256

  type Toks = seq<Token>

  function Head(ts: Toks): Token {
    if ts == [] then Eof else ts[0]
  }

  function Advance(ts: Toks): (r: Option<Toks>)
    requires ts != []
    ensures r.Some? ==> r.value == ts[1..] && !Head(ts[1..]).ErrorToken?
  {
    if Head(ts[1..]).ErrorToken? then None else Some(ts[1..])
  }

  function Expect(ts: Toks, t: Token): (r: Option<Toks>)
    ensures r.Some? ==> ts != [] && ts[0] == t && r.value == ts[1..] && !Head(ts[1..]).ErrorToken?
  {
    if ts != [] && ts[0] == t then Advance(ts) else None
  }

  /** Identifiers, and extension keywords in their place. */
  function IdentName(t: Token): Option<string> {
    match t
    case Ident(name) => Some(name)
    case KwExt(kind) => Some(ExtName(kind))
    case _ => None
  }

  /** The value of a string token where the `\*` escape is not allowed. */
  function PlainString(t: Token): Option<string> {
    if t.Str? && !t.starEscape then Some(t.value) else None
  }

  /** The four left-associative chains: or, and, add, mult. */
  datatype Level = OrLevel | AndLevel | AddLevel | MulLevel

  predicate InChain(l: Level, t: Token) {
    t.Oper? &&
    match l
    case OrLevel => t.op == Or
    case AndLevel => t.op == And
    case AddLevel => t.op == Plus || t.op == Minus
    case MulLevel => t.op == Mul
  }

  predicate IsRelOp(op: Op) {
    op == Eq || op == Ne || op == In || op == Lt || op == Gt || op == Le || op == Ge
  }

  function Rank(l: Level): nat {
    match l
    case OrLevel => 11
    case AndLevel => 9
    case AddLevel => 6
    case MulLevel => 4
  }

  function ParseExpr(ts: Toks, depth: nat, recDepth: nat): (r: Option<(Node, Toks)>)
    ensures r.Some? ==> |r.value.1| < |ts|
    decreases |ts|, 13
  {
    if depth + 1 > MAX_PARSE_DEPTH then None
    else if Head(ts) == KwIf then ParseIf(ts, depth + 1, recDepth)
    else ParseChain(OrLevel, ts, depth + 1, recDepth)
  }

  function ParseIf(ts: Toks, depth: nat, recDepth: nat): (r: Option<(Node, Toks)>)
    requires ts != []
    ensures r.Some? ==> |r.value.1| < |ts|
    decreases |ts|, 0
  {
    var t1 :- Advance(ts);
    var (c, t2) :- ParseExpr(t1, depth, recDepth);
    IfBranches(c, t2, depth, recDepth)
  }

  /** What follows the condition. */
  function IfBranches(c: Node, ts: Toks, depth: nat, recDepth: nat): (r: Option<(Node, Toks)>)
    ensures r.Some? ==> |r.value.1| < |ts|
    decreases |ts|, 0
  {
    var t1 :- Expect(ts, KwThen);
    var (a, t2) :- ParseExpr(t1, depth, recDepth);
    ElseBranch(c, a, t2, depth, recDepth)
  }

  function ElseBranch(c: Node, a: Node, ts: Toks, depth: nat, recDepth: nat): (r: Option<(Node, Toks)>)
    ensures r.Some? ==> |r.value.1| < |ts|
    decreases |ts|, 0
  {
    var t1 :- Expect(ts, KwElse);
    var (b, t2) :- ParseExpr(t1, depth, recDepth);
    Some((If(c, a, b), t2))
  }

  function ParseChain(l: Level, ts: Toks, depth: nat, recDepth: nat): (r: Option<(Node, Toks)>)
    ensures r.Some? ==> |r.value.1| < |ts|
    decreases |ts|, Rank(l) + 1
  {
    var (left, t1) :- ParseOperand(l, ts, depth, recDepth);
    ChainRest(l, left, t1, 0, depth, recDepth)
  }

  function ParseOperand(l: Level, ts: Toks, depth: nat, recDepth: nat): (r: Option<(Node, Toks)>)
    ensures r.Some? ==> |r.value.1| < |ts|
    decreases |ts|, Rank(l)
  {
    match l
    case OrLevel => ParseChain(AndLevel, ts, depth, recDepth)
    case AndLevel => ParseRelation(ts, depth, recDepth)
    case AddLevel => ParseChain(MulLevel, ts, depth, recDepth)
    case MulLevel => ParseUnary(ts, depth, recDepth)
  }

  /** The loop of a chain: `count` operators already read, `left` the tree so far. */
  function ChainRest(l: Level, left: Node, ts: Toks, count: nat, depth: nat, recDepth: nat)
    : (r: Option<(Node, Toks)>)
    ensures r.Some? ==> |r.value.1| <= |ts|
    decreases |ts|, 0
  {
    if !InChain(l, Head(ts)) then Some((left, ts))
    else if count + 1 > MAX_BINOP_CHAIN then None
    else
      var t1 :- Advance(ts);
      var (right, t2) :- ParseOperand(l, t1, depth, recDepth);
      ChainRest(l, Bin(Head(ts).op, left, right), t2, count + 1, depth, recDepth)
  }

  function ParseRelation(ts: Toks, depth: nat, recDepth: nat): (r: Option<(Node, Toks)>)
    ensures r.Some? ==> |r.value.1| < |ts|
    decreases |ts|, 8
  {
    var (left, t1) :- ParseChain(AddLevel, ts, depth, recDepth);
    RelationRest(left, t1, depth, recDepth)
  }

  /** At most one relation after the first operand. */
  function RelationRest(left: Node, ts: Toks, depth: nat, recDepth: nat): (r: Option<(Node, Toks)>)
    ensures r.Some? ==> |r.value.1| <= |ts|
    decreases |ts|, 0
  {
    match Head(ts)
    case KwHas =>
      var t1 :- Advance(ts);
      var name :- (if Head(t1).Str? then PlainString(Head(t1)) else IdentName(Head(t1)));
      var t2 :- Advance(t1);
      Some((Has(left, name), t2))
    case KwIs =>
      var t1 :- Advance(ts);
      var (ty, t2) :- ParseTypeName(t1);
      if Head(t2) == Oper(In) then
        var t3 :- Advance(t2);
        var (e, t4) :- ParseChain(AddLevel, t3, depth, recDepth);
        Some((Is(left, ty, Some(e)), t4))
      else
        Some((Is(left, ty, None), t2))
    case KwLike =>
      var t1 :- Advance(ts);
      if !Head(t1).Str? then None else
      var pattern :- Pattern.Compiled(t1[0].raw);
      var t2 :- Advance(t1);
      Some((Like(left, pattern), t2))
    case Oper(op) =>
      if !IsRelOp(op) then Some((left, ts)) else
      var t1 :- Advance(ts);
      var (right, t2) :- ParseChain(AddLevel, t1, depth, recDepth);
      Some((Bin(op, left, right), t2))
    case _ => Some((left, ts))
  }

  function ParseTypeName(ts: Toks): (r: Option<(string, Toks)>)
    ensures r.Some? ==> |r.value.1| < |ts|
  {
    if !Head(ts).Ident? then None else
    var t1 :- Advance(ts);
    TypeNameRest(ts[0].name, 1, t1)
  }

  function TypeNameRest(name: string, parts: nat, ts: Toks): (r: Option<(string, Toks)>)
    ensures r.Some? ==> |r.value.1| <= |ts|
    decreases |ts|
  {
    if Head(ts) != ColonColon then Some((name, ts)) else
    var t1 :- Advance(ts);
    if !Head(t1).Ident? || parts + 1 > MAX_TYPE_PARTS then None else
    var t2 :- Advance(t1);
    TypeNameRest(name + "::" + t1[0].name, parts + 1, t2)
  }

  function ParseUnary(ts: Toks, depth: nat, recDepth: nat): (r: Option<(Node, Toks)>)
    ensures r.Some? ==> |r.value.1| < |ts|
    decreases |ts|, 3
  {
    if Head(ts) == Oper(Minus) then
      var t1 :- Advance(ts);
      if Head(t1).Number? then
        var n :- NegLongOf(t1[0].digits);
        var t2 :- Advance(t1);
        Some((LongLit(n), t2))
      else if depth + 1 > MAX_PARSE_DEPTH then None
      else
        var (e, t2) :- ParseUnary(t1, depth + 1, recDepth);
        Some((Neg(e), t2))
    else if Head(ts) == Bang then
      var t1 :- Advance(ts);
      if depth + 1 > MAX_PARSE_DEPTH then None
      else
        var (e, t2) :- ParseUnary(t1, depth + 1, recDepth);
        Some((Not(e), t2))
    else
      ParseMember(ts, depth, recDepth)
  }

  function ParseMember(ts: Toks, depth: nat, recDepth: nat): (r: Option<(Node, Toks)>)
    ensures r.Some? ==> |r.value.1| < |ts|
    decreases |ts|, 2
  {
    var (base, t1) :- ParsePrimary(ts, depth, recDepth);
    MemberRest(base, t1, 0, depth, recDepth)
  }

  /** The loop of a member chain: `count` steps already read. */
  function MemberRest(obj: Node, ts: Toks, count: nat, depth: nat, recDepth: nat)
    : (r: Option<(Node, Toks)>)
    ensures r.Some? ==> |r.value.1| <= |ts|
    decreases |ts|, 2
  {
    if Head(ts) != Dot && Head(ts) != LBracket then Some((obj, ts))
    else if count + 1 > MAX_MEMBER_CHAIN then None
    else
      var (step, t1) :- ParseStep(obj, ts, depth, recDepth);
      MemberRest(step, t1, count + 1, depth, recDepth)
  }

  /** One step of a member chain. */
  function ParseStep(obj: Node, ts: Toks, depth: nat, recDepth: nat): (r: Option<(Node, Toks)>)
    requires ts != []
    ensures r.Some? ==> |r.value.1| < |ts|
    decreases |ts|, 1
  {
    if ts[0] == LBracket then ParseBracketStep(obj, ts) else ParseDotStep(obj, ts, depth, recDepth)
  }

  /** `["key"]` */
  function ParseBracketStep(obj: Node, ts: Toks): (r: Option<(Node, Toks)>)
    requires ts != []
    ensures r.Some? ==> |r.value.1| < |ts|
  {
    var t1 :- Advance(ts);
    var key :- PlainString(Head(t1));
    var t2 :- Advance(t1);
    if key == "" then None else
    var t3 :- Expect(t2, RBracket);
    Some((GetAttr(obj, key), t3))
  }

  /** `.name`, and what makes it a call */
  function ParseDotStep(obj: Node, ts: Toks, depth: nat, recDepth: nat): (r: Option<(Node, Toks)>)
    requires ts != []
    ensures r.Some? ==> |r.value.1| < |ts|
    decreases |ts|, 0
  {
    var t1 :- Advance(ts);
    var name :- IdentName(Head(t1));
    var t2 :- Advance(t1);
    if Head(t2) == LParen then ParseCall(obj, name, t2, depth, recDepth) else Some((GetAttr(obj, name), t2))
  }

  /** `()` or `(arg)` after a name */
  function ParseCall(obj: Node, name: string, ts: Toks, depth: nat, recDepth: nat): (r: Option<(Node, Toks)>)
    requires ts != []
    ensures r.Some? ==> |r.value.1| < |ts|
    decreases |ts|, 0
  {
    var t1 :- Advance(ts);
    if Head(t1) == RParen then
      var t2 :- Advance(t1);
      Some((Call(obj, name, None), t2))
    else
      var (arg, t2) :- ParseExpr(t1, depth, recDepth);
      var t3 :- Expect(t2, RParen);
      Some((Call(obj, name, Some(arg)), t3))
  }

  function ParsePrimary(ts: Toks, depth: nat, recDepth: nat): (r: Option<(Node, Toks)>)
    ensures r.Some? ==> |r.value.1| < |ts|
    decreases |ts|, 1
  {
    match Head(ts)
    case KwTrue => var t1 :- Advance(ts); Some((BoolLit(true), t1))
    case KwFalse => var t1 :- Advance(ts); Some((BoolLit(false), t1))
    case Number(digits) =>
      var n :- LongOf(digits);
      var t1 :- Advance(ts);
      Some((LongLit(n), t1))
    case Str(_, _, _) =>
      var s :- PlainString(ts[0]);
      var t1 :- Advance(ts);
      Some((StrLit(s), t1))
    case KwVar(v) => var t1 :- Advance(ts); Some((VarRef(v), t1))
    case KwExt(kind) => ParseExtension(kind, ts)
    case Ident(name) =>
      var t1 :- Advance(ts);
      ParseEntityRef(name, 1, t1)
    case LParen => ParseParenthesized(ts, depth, recDepth)
    case LBracket => ParseSet(ts, depth, recDepth)
    case LBrace => ParseRecord(ts, depth, recDepth)
    case _ => None
  }

  /** `ip("..")`, `decimal("..")`, `datetime("..")` and `duration("..")` */
  function ParseExtension(kind: ExtKind, ts: Toks): (r: Option<(Node, Toks)>)
    requires ts != []
    ensures r.Some? ==> |r.value.1| < |ts|
  {
    var t1 :- Advance(ts);
    var t2 :- Expect(t1, LParen);
    var text :- PlainString(Head(t2));
    var t3 :- Advance(t2);
    var t4 :- Expect(t3, RParen);
    Some((ExtLit(kind, text), t4))
  }

  function ParseParenthesized(ts: Toks, depth: nat, recDepth: nat): (r: Option<(Node, Toks)>)
    requires ts != []
    ensures r.Some? ==> |r.value.1| < |ts|
    decreases |ts|, 0
  {
    var t1 :- Advance(ts);
    var (e, t2) :- ParseExpr(t1, depth, recDepth);
    var t3 :- Expect(t2, RParen);
    Some((e, t3))
  }

  /** The rest of `Type::..::"id"` once its first identifier has been read. */
  function ParseEntityRef(name: string, parts: nat, ts: Toks): (r: Option<(Node, Toks)>)
    ensures r.Some? ==> |r.value.1| < |ts| && r.value.0.EntityRef?
    decreases |ts|
  {
    if Head(ts) != ColonColon then None else
    var t1 :- Advance(ts);
    if Head(t1).Str? then
      var id :- PlainString(t1[0]);
      var t2 :- Advance(t1);
      Some((EntityRef(name, id), t2))
    else if Head(t1).Ident? && parts + 1 <= MAX_TYPE_PARTS then
      var t2 :- Advance(t1);
      ParseEntityRef(name + "::" + t1[0].name, parts + 1, t2)
    else None
  }

  function ParseSet(ts: Toks, depth: nat, recDepth: nat): (r: Option<(Node, Toks)>)
    requires ts != []
    ensures r.Some? ==> |r.value.1| < |ts| && r.value.0.SetLit?
    decreases |ts|, 0
  {
    var t1 :- Advance(ts);
    if Head(t1) == RBracket then
      var t2 :- Advance(t1);
      Some((SetLit([]), t2))
    else
      var (first, t2) :- ParseExpr(t1, depth, recDepth);
      SetClose([first], t2, depth, recDepth)
  }

  /** The elements after those already read, and the closing bracket. */
  function SetClose(elts: seq<Node>, ts: Toks, depth: nat, recDepth: nat): (r: Option<(Node, Toks)>)
    ensures r.Some? ==> |r.value.1| < |ts| && r.value.0.SetLit?
    decreases |ts|, 1
  {
    var (all, t1) :- SetRest(elts, ts, depth, recDepth);
    var t2 :- Expect(t1, RBracket);
    Some((SetLit(all), t2))
  }

  function SetRest(elts: seq<Node>, ts: Toks, depth: nat, recDepth: nat): (r: Option<(seq<Node>, Toks)>)
    ensures r.Some? ==> |r.value.1| <= |ts|
    decreases |ts|, 0
  {
    if Head(ts) != Comma then Some((elts, ts))
    else if |elts| + 1 > MAX_SET_ELEMENTS then None
    else
      var t1 :- Advance(ts);
      var (e, t2) :- ParseExpr(t1, depth, recDepth);
      SetRest(elts + [e], t2, depth, recDepth)
  }

  predicate HasKey(entries: seq<Entry>, key: string) {
    exists i :: 0 <= i < |entries| && entries[i].key == key
  }

  function ParseRecord(ts: Toks, depth: nat, recDepth: nat): (r: Option<(Node, Toks)>)
    requires ts != []
    ensures r.Some? ==> |r.value.1| < |ts| && r.value.0.RecordLit?
    decreases |ts|, 0
  {
    if recDepth + 1 > MAX_RECORD_DEPTH then None else
    var t1 :- Advance(ts);
    if Head(t1) == RBrace then
      var t2 :- Advance(t1);
      Some((RecordLit([]), t2))
    else
      RecordClose([], t1, depth, recDepth + 1)
  }

  /** The entries after those already read, and the closing brace. */
  function RecordClose(entries: seq<Entry>, ts: Toks, depth: nat, recDepth: nat): (r: Option<(Node, Toks)>)
    ensures r.Some? ==> |r.value.1| < |ts| && r.value.0.RecordLit?
    decreases |ts|, 2
  {
    var (all, t1) :- ParseEntries(entries, ts, depth, recDepth);
    var t2 :- Expect(t1, RBrace);
    Some((RecordLit(all), t2))
  }

  /** One or more entries after those already read; a comma may follow the last one. */
  function ParseEntries(entries: seq<Entry>, ts: Toks, depth: nat, recDepth: nat)
    : (r: Option<(seq<Entry>, Toks)>)
    ensures r.Some? ==> |r.value.1| < |ts|
    decreases |ts|, 1
  {
    var (entry, t1) :- ParseEntry(entries, ts, depth, recDepth);
    if Head(t1) == Comma then
      var t2 :- Advance(t1);
      if Head(t2) == RBrace then Some((entries + [entry], t2))
      else ParseEntries(entries + [entry], t2, depth, recDepth)
    else Some((entries + [entry], t1))
  }

  /** The next entry `key: expr`, if its key is new and there is room for it. */
  function ParseEntry(entries: seq<Entry>, ts: Toks, depth: nat, recDepth: nat): (r: Option<(Entry, Toks)>)
    ensures r.Some? ==> |r.value.1| < |ts|
    decreases |ts|, 0
  {
    if |entries| + 1 > MAX_RECORD_ENTRIES then None else
    var key :- (if Head(ts).Str? then PlainString(Head(ts)) else IdentName(Head(ts)));
    var t1 :- Advance(ts);
    if HasKey(entries, key) then None else
    var t2 :- Expect(t1, Colon);
    var (e, t3) :- ParseExpr(t2, depth, recDepth);
    Some((Entry(key, e), t3))
  }
}
