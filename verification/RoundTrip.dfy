/**
 * Parsing undoes printing: for every well-formed expression, the parser reads the printed tokens back
 * to the same expression exactly when the expression stays within the parser's nesting and chain
 * limits, and rejects them otherwise.
 */
module RoundTrip {
  import opened Common
  import opened Syntax
  import opened Grammar
  import opened Printer
  import Lexer
  import Pattern

  // ---- Which expressions the parser can build ----

  /** Type names are at most sixteen identifiers joined by `::`. */
  predicate IsTypeName(ty: string) {
    var parts := Segments(ty);
    |parts| <= MAX_TYPE_PARTS
    && forall i :: 0 <= i < |parts| ==> Lexer.IsName(parts[i]) && Lexer.Keyword(parts[i]).None?
  }

  predicate DistinctKeys(entries: seq<Entry>) {
    forall i, j :: 0 <= i < j < |entries| ==> entries[i].key != entries[j].key
  }

  /** The invariants of every node the parser returns. */
  predicate WellFormed(n: Node) {
    match n
    case LongLit(i) => InInt64(i)
    case EntityRef(ty, _) => IsTypeName(ty)
    case SetLit(elts) => |elts| <= MAX_SET_ELEMENTS && forall i :: 0 <= i < |elts| ==> WellFormed(elts[i])
    case GetAttr(obj, attr) => attr != "" && WellFormed(obj)
    case Call(obj, callee, arg) => IsPlainName(callee) && WellFormed(obj) && (arg.Some? ==> WellFormed(arg.value))
    case Bin(_, left, right) => WellFormed(left) && WellFormed(right)
    case Not(e) => WellFormed(e)
    case Neg(e) => WellFormed(e)
    case Has(obj, _) => WellFormed(obj)
    case Like(obj, pattern) => Pattern.NoDoubleWild(pattern) && WellFormed(obj)
    case If(c, a, b) => WellFormed(c) && WellFormed(a) && WellFormed(b)
    case Is(obj, ty, inEntity) => IsTypeName(ty) && WellFormed(obj) && (inEntity.Some? ==> WellFormed(inEntity.value))
    case RecordLit(entries) =>
      && |entries| <= MAX_RECORD_ENTRIES && DistinctKeys(entries)
      && forall i :: 0 <= i < |entries| ==> WellFormed(entries[i].value)
    case _ => true
  }

  // ---- The limits ----

  /** Operators on the left spine of a chain. */
  function Spine(level: nat, n: Node): nat {
    if n.Bin? && OpLevel(n.op) == level then 1 + Spine(level, n.left) else 0
  }

  /** Steps of a member chain. */
  function Steps(n: Node): nat {
    match n
    case GetAttr(obj, _) => 1 + Steps(obj)
    case Call(obj, _, _) => 1 + Steps(obj)
    case _ => 0
  }

  /** n fits when read by the parser of level l. */
  predicate Fits(n: Node, l: nat, depth: nat, recDepth: nat)
    decreases n, 1
  {
    if l == EXPR || NodeLevel(n) < l then depth + 1 <= MAX_PARSE_DEPTH && FitsRaw(n, depth + 1, recDepth)
    else FitsRaw(n, depth, recDepth)
  }

  predicate FitsRaw(n: Node, depth: nat, recDepth: nat)
    decreases n, 0
  {
    match n
    case SetLit(elts) => FitElts(elts, depth, recDepth)
    case GetAttr(obj, _) => Steps(n) <= MAX_MEMBER_CHAIN && Fits(obj, MEMBER, depth, recDepth)
    case Call(obj, _, arg) =>
      && Steps(n) <= MAX_MEMBER_CHAIN && Fits(obj, MEMBER, depth, recDepth)
      && (arg.Some? ==> Fits(arg.value, EXPR, depth, recDepth))
    case Bin(op, left, right) =>
      && (OpLevel(op) != REL ==> Spine(OpLevel(op), n) <= MAX_BINOP_CHAIN)
      && Fits(left, if OpLevel(op) == REL then ADD else OpLevel(op), depth, recDepth)
      && Fits(right, OpLevel(op) + 1, depth, recDepth)
    case Not(e) => depth + 1 <= MAX_PARSE_DEPTH && Fits(e, UNARY, depth + 1, recDepth)
    case Neg(e) =>
      && depth + 1 <= MAX_PARSE_DEPTH
      && Fits(e, if StartsWithNumber(e) then MEMBER + 1 else UNARY, depth + 1, recDepth)
    case Has(obj, _) => Fits(obj, ADD, depth, recDepth)
    case Like(obj, _) => Fits(obj, ADD, depth, recDepth)
    case If(c, a, b) => Fits(c, EXPR, depth, recDepth) && Fits(a, EXPR, depth, recDepth) && Fits(b, EXPR, depth, recDepth)
    case Is(obj, _, inEntity) =>
      Fits(obj, ADD, depth, recDepth) && (inEntity.Some? ==> Fits(inEntity.value, ADD, depth, recDepth))
    case RecordLit(entries) => recDepth + 1 <= MAX_RECORD_DEPTH && FitEntries(entries, depth, recDepth + 1)
    case _ => true
  }

  predicate FitElts(elts: seq<Node>, depth: nat, recDepth: nat)
    decreases elts, 0
  {
    elts == [] || (Fits(elts[0], EXPR, depth, recDepth) && FitElts(elts[1..], depth, recDepth))
  }

  predicate FitEntries(entries: seq<Entry>, depth: nat, recDepth: nat)
    decreases entries, 0
  {
    entries == [] || (Fits(entries[0].value, EXPR, depth, recDepth) && FitEntries(entries[1..], depth, recDepth))
  }

  // ---- Reading at a level ----

  function ChainLevel(l: nat): Level
    requires l == OR || l == AND || l == ADD || l == MUL
  {
    if l == OR then OrLevel else if l == AND then AndLevel else if l == ADD then AddLevel else MulLevel
  }

  function ParseAt(l: nat, ts: Toks, depth: nat, recDepth: nat): Option<(Node, Toks)>
    requires l <= MEMBER
  {
    if l == EXPR then ParseExpr(ts, depth, recDepth)
    else if l == REL then ParseRelation(ts, depth, recDepth)
    else if l == UNARY then ParseUnary(ts, depth, recDepth)
    else if l == MEMBER then ParseMember(ts, depth, recDepth)
    else ParseChain(ChainLevel(l), ts, depth, recDepth)
  }

  /** t cannot continue an expression of level l. */
  predicate Stops(t: Token, l: nat) {
    && !t.ErrorToken? && t != Dot && t != LBracket && t != LParen && t != ColonColon
    && (t.Oper? ==> OpLevel(t.op) < l)
    && (l <= REL ==> t != KwHas && t != KwIs && t != KwLike)
  }

  /** t is none of the tokens that would mislead the parser at the start of an expression of level l. */
  predicate Starts(t: Token, l: nat) {
    && !t.ErrorToken? && t != RParen && t != RBracket && t != RBrace
    && (OR <= l ==> t != KwIf)
    && (MEMBER <= l ==> t != Bang && t != Oper(Minus))
  }

  /** What stops a loose level stops every tighter one. */
  lemma StopsTighter(t: Token, l: nat, m: nat)
    requires Stops(t, l) && l <= m
    ensures Stops(t, m)
  {
  }

  /** What a printed expression begins with. */
  lemma {:induction false} PrintHead(n: Node, l: nat, k: Toks)
    requires l <= MEMBER
    ensures Print(n, l, k) != [] && Starts(Print(n, l, k)[0], l)
    ensures UNARY <= l ==> (Print(n, l, k)[0].Number? <==> NodeLevel(n) >= l && StartsWithNumber(n))
    decreases n, 1
  {
    if NodeLevel(n) >= l {
      RawHead(n, k);
    }
  }

  lemma {:induction false} RawHead(n: Node, k: Toks)
    ensures Raw(n, k) != [] && Starts(Raw(n, k)[0], NodeLevel(n))
    ensures UNARY <= NodeLevel(n) ==> (Raw(n, k)[0].Number? <==> StartsWithNumber(n))
    decreases n, 0
  {
    match n
    case GetAttr(obj, attr) =>
      PrintHead(obj, MEMBER, AttrTokens(attr, k));
    case Call(obj, callee, arg) =>
      PrintHead(obj, MEMBER, CallTokens(callee, PrintArg(arg, [RParen] + k)));
    case Bin(op, left, right) =>
      PrintHead(left, if OpLevel(op) == REL then ADD else OpLevel(op), [Oper(op)] + Print(right, OpLevel(op) + 1, k));
    case Has(obj, attr) => PrintHead(obj, ADD, [KwHas] + ([KeyToken(attr)] + k));
    case Like(obj, pattern) => PrintHead(obj, ADD, [KwLike] + ([PatternToken(pattern)] + k));
    case Is(obj, ty, inEntity) =>
      PrintHead(obj, ADD, [KwIs] + TypeTokens(Segments(ty), PrintIn(inEntity, k)));
    case _ =>
  }

  // ---- Reading back, construct by construct ----

  lemma TypeTokensNonEmpty(parts: seq<string>, k: Toks)
    requires |parts| > 0
    ensures TypeTokens(parts, k) != [] && TypeTokens(parts, k)[0] == Ident(parts[0])
  {
  }

  function Join(parts: seq<string>): string
    requires |parts| > 0
  {
    if |parts| == 1 then parts[0] else parts[0] + "::" + Join(parts[1..])
  }

  lemma Regroup(a: string, b: string, c: string, d: string)
    ensures a + b + c + d == a + (b + c + d)
  {
  }

  lemma JoinPrefix(c: char, parts: seq<string>)
    requires |parts| > 0
    ensures Join([[c] + parts[0]] + parts[1..]) == [c] + Join(parts)
  {
    if |parts| > 1 {
      Regroup([c], parts[0], "::", Join(parts[1..]));
    }
  }

  /** Joining the segments of a type name gives it back. */
  lemma {:induction false} JoinSegments(ty: string)
    ensures Join(Segments(ty)) == ty
    decreases |ty|
  {
    if ty == "" {
    } else if |ty| >= 2 && ty[..2] == "::" {
      JoinSegments(ty[2..]);
      assert Segments(ty)[1..] == Segments(ty[2..]);
      assert ty == "" + "::" + ty[2..];
    } else {
      JoinSegments(ty[1..]);
      JoinPrefix(ty[0], Segments(ty[1..]));
      assert ty == [ty[0]] + ty[1..];
    }
  }

  /** One more segment of a type name. */
  lemma JoinStep(name: string, parts: seq<string>)
    requires |parts| > 1
    ensures name + "::" + parts[0] + "::" + Join(parts[1..]) == name + "::" + Join(parts)
  {
  }

  /** The loop of a type name, `name` already read, reads the remaining segments. */
  lemma {:induction false} TypeNameTrip(name: string, done: nat, parts: seq<string>, k: Toks)
    requires |parts| > 0 && Stops(Head(k), MEMBER) && done + |parts| <= MAX_TYPE_PARTS
    ensures TypeNameRest(name, done, [ColonColon] + TypeTokens(parts, k)) == Some((name + "::" + Join(parts), k))
    decreases |parts|
  {
    if |parts| > 1 {
      TypeNameTrip(name + "::" + parts[0], done + 1, parts[1..], k);
      JoinStep(name, parts);
    }
  }

  lemma ReadTypeName(ty: string, k: Toks)
    requires IsTypeName(ty) && Stops(Head(k), MEMBER)
    ensures ParseTypeName(TypeTokens(Segments(ty), k)) == Some((ty, k))
  {
    var parts := Segments(ty);
    JoinSegments(ty);
    if |parts| > 1 {
      TypeNameTrip(parts[0], 1, parts[1..], k);
    }
  }

  function IdTokens(id: string, k: Toks): Toks {
    [ColonColon] + ([StrToken(id)] + k)
  }

  lemma EntityStep(name: string, done: nat, next: string, k: Toks)
    requires done + 1 <= MAX_TYPE_PARTS && !Head(k).ErrorToken?
    ensures ParseEntityRef(name, done, [ColonColon] + ([Ident(next)] + k)) ==
      ParseEntityRef(name + "::" + next, done + 1, k)
  {
  }

  lemma {:induction false} EntityTrip(name: string, done: nat, parts: seq<string>, id: string, k: Toks)
    requires |parts| > 0 && done + |parts| <= MAX_TYPE_PARTS && !Head(k).ErrorToken?
    ensures ParseEntityRef(name, done, [ColonColon] + TypeTokens(parts, IdTokens(id, k)))
      == Some((EntityRef(name + "::" + Join(parts), id), k))
    decreases |parts|
  {
    hide ParseEntityRef;
    if |parts| > 1 {
      EntityStep(name, done, parts[0], [ColonColon] + TypeTokens(parts[1..], IdTokens(id, k)));
      EntityTrip(name + "::" + parts[0], done + 1, parts[1..], id, k);
      JoinStep(name, parts);
    } else {
      EntityStep(name, done, parts[0], IdTokens(id, k));
      ReadId(name + "::" + parts[0], done + 1, id, k);
    }
  }

  lemma ReadId(name: string, done: nat, id: string, k: Toks)
    requires !Head(k).ErrorToken?
    ensures ParseEntityRef(name, done, IdTokens(id, k)) == Some((EntityRef(name, id), k))
  {
  }

  lemma PrimaryIdent(ts: Toks, depth: nat, recDepth: nat)
    requires ts != [] && ts[0].Ident? && !Head(ts[1..]).ErrorToken?
    ensures ParsePrimary(ts, depth, recDepth) == ParseEntityRef(ts[0].name, 1, ts[1..])
  {
    hide ParseCall, ParseExtension, ParseParenthesized, ParseEntityRef, ParseSet, HasKey;
  }

  lemma ReadEntity(ty: string, id: string, k: Toks, depth: nat, recDepth: nat)
    requires IsTypeName(ty) && !Head(k).ErrorToken?
    ensures ParsePrimary(Raw(EntityRef(ty, id), k), depth, recDepth) == Some((EntityRef(ty, id), k))
  {
    hide ParsePrimary, ParseEntityRef;
    var parts := Segments(ty);
    var ts := TypeTokens(parts, IdTokens(id, k));
    JoinSegments(ty);
    PrimaryIdent(ts, depth, recDepth);
    if |parts| == 1 {
      ReadId(parts[0], 1, id, k);
    } else {
      EntityTrip(parts[0], 1, parts[1..], id, k);
    }
  }

  /** The result r, if the closing token t follows it. */
  function Closed(r: Option<(Node, Toks)>, t: Token): Option<(Node, Toks)> {
    var (n, rest) :- r;
    var rest' :- Expect(rest, t);
    Some((n, rest'))
  }

  lemma PrimaryParen(k: Toks, depth: nat, recDepth: nat)
    requires !Head(k).ErrorToken?
    ensures ParsePrimary([LParen] + k, depth, recDepth) == Closed(ParseExpr(k, depth, recDepth), RParen)
  {
    hide ChainRest, ParseRelation;
  }

  lemma PrimaryBracket(ts: Toks, depth: nat, recDepth: nat)
    requires ts != [] && (ts[0] == LBracket || ts[0] == LBrace)
    ensures ParsePrimary(ts, depth, recDepth) ==
      if ts[0] == LBracket then ParseSet(ts, depth, recDepth) else ParseRecord(ts, depth, recDepth)
  {
    hide ParseEntries;
  }

  /** Literals and variables. */
  lemma ReadSimple(n: Node, k: Toks, depth: nat, recDepth: nat)
    requires n.BoolLit? || n.StrLit? || n.VarRef? || n.ExtLit? || (n.LongLit? && 0 <= n.n <= INT64_MAX)
    requires !Head(k).ErrorToken?
    ensures ParsePrimary(Raw(n, k), depth, recDepth) == Some((n, k))
  {
    if n.ExtLit? {
      ReadExt(n, k, depth, recDepth);
    } else {
      ReadToken(n, k, depth, recDepth);
    }
  }

  lemma ReadExt(n: Node, k: Toks, depth: nat, recDepth: nat)
    requires n.ExtLit? && !Head(k).ErrorToken?
    ensures ParsePrimary(Raw(n, k), depth, recDepth) == Some((n, k))
  {
    hide ParseSet, ParseRecord, ParseEntityRef, ParseParenthesized, Lexer.Unquote, Lexer.QuoteByte;
  }

  lemma ReadToken(n: Node, k: Toks, depth: nat, recDepth: nat)
    requires n.BoolLit? || n.StrLit? || n.VarRef? || (n.LongLit? && 0 <= n.n <= INT64_MAX)
    requires !Head(k).ErrorToken?
    ensures ParsePrimary(Raw(n, k), depth, recDepth) == Some((n, k))
  {
    hide ParseSet, ParseRecord, ParseEntityRef, ParseParenthesized, ParseExtension, Lexer.Unquote, Lexer.QuoteByte;
  }

  /** A level passes on what the next tighter one read, if nothing follows that it could take. */
  lemma Lift(l: nat, ts: Toks, depth: nat, recDepth: nat)
    requires OR <= l < MEMBER
    requires ParseAt(l + 1, ts, depth, recDepth).Some? ==>
      Stops(Head(ParseAt(l + 1, ts, depth, recDepth).value.1), l)
    requires l == UNARY ==> Head(ts) != Bang && Head(ts) != Oper(Minus)
    ensures ParseAt(l, ts, depth, recDepth) == ParseAt(l + 1, ts, depth, recDepth)
  {
    if l == REL {
      if t: (Node, Toks) :| ParseAt(ADD, ts, depth, recDepth) == Some(t) {
        assert RelationRest(t.0, t.1, depth, recDepth) == Some(t);
      }
    } else if l != UNARY {
      assert ParseAt(l + 1, ts, depth, recDepth) == ParseOperand(ChainLevel(l), ts, depth, recDepth);
      if t: (Node, Toks) :| ParseAt(l + 1, ts, depth, recDepth) == Some(t) {
        assert ChainRest(ChainLevel(l), t.0, t.1, 0, depth, recDepth) == Some(t);
      }
    }
  }

  lemma {:induction false} LiftTo(l: nat, m: nat, ts: Toks, depth: nat, recDepth: nat)
    requires OR <= l <= m <= MEMBER
    requires ParseAt(m, ts, depth, recDepth).Some? ==>
      Stops(Head(ParseAt(m, ts, depth, recDepth).value.1), l)
    requires l < m == MEMBER ==> Head(ts) != Bang && Head(ts) != Oper(Minus)
    ensures ParseAt(l, ts, depth, recDepth) == ParseAt(m, ts, depth, recDepth)
    decreases m - l
  {
    if l < m {
      LiftTo(l + 1, m, ts, depth, recDepth);
      Lift(l, ts, depth, recDepth);
    }
  }

  // ---- One step of each reading function ----

  lemma ExprIsChain(ts: Toks, depth: nat, recDepth: nat)
    requires Head(ts) != KwIf || depth + 1 > MAX_PARSE_DEPTH
    ensures ParseExpr(ts, depth, recDepth) ==
      if depth + 1 > MAX_PARSE_DEPTH then None else ParseAt(OR, ts, depth + 1, recDepth)
  {
  }

  lemma ChainStep(l: Level, left: Node, op: Op, k: Toks, count: nat, depth: nat, recDepth: nat)
    requires InChain(l, Oper(op)) && !Head(k).ErrorToken?
    ensures ChainRest(l, left, [Oper(op)] + k, count, depth, recDepth) ==
      if count + 1 > MAX_BINOP_CHAIN then None
      else
        var r := ParseOperand(l, k, depth, recDepth);
        if r.None? then None
        else ChainRest(l, Bin(op, left, r.value.0), r.value.1, count + 1, depth, recDepth)
  {
    hide ParseEntry;
  }

  lemma BinFacts(n: Node, k: Toks, depth: nat, recDepth: nat)
    requires WellFormed(n) && n.Bin? && OpLevel(n.op) != REL
    ensures WellFormed(n.left) && WellFormed(n.right)
    ensures var l := OpLevel(n.op);
      && Raw(n, k) == Print(n.left, l, [Oper(n.op)] + Print(n.right, l + 1, k))
      && Spine(l, n) == 1 + Spine(l, n.left)
      && (FitsRaw(n, depth, recDepth) <==>
           Spine(l, n) <= MAX_BINOP_CHAIN && Fits(n.left, l, depth, recDepth) && Fits(n.right, l + 1, depth, recDepth))
  {
  }

  lemma NegFacts(n: Node, k: Toks, depth: nat, recDepth: nat)
    requires WellFormed(n) && n.Neg?
    ensures WellFormed(n.operand)
    ensures var l := if StartsWithNumber(n.operand) then MEMBER + 1 else UNARY;
      && Raw(n, k) == [Oper(Minus)] + Print(n.operand, l, k)
      && (FitsRaw(n, depth, recDepth) <==> depth + 1 <= MAX_PARSE_DEPTH && Fits(n.operand, l, depth + 1, recDepth))
  {
    hide Print, Fits, StartsWithNumber;
  }

  lemma EltStep(done: seq<Node>, k: Toks, depth: nat, recDepth: nat)
    requires !Head(k).ErrorToken? && |done| + 1 <= MAX_SET_ELEMENTS
    ensures SetRest(done, [Comma] + k, depth, recDepth) ==
      var r := ParseExpr(k, depth, recDepth);
      if r.None? then None else SetRest(done + [r.value.0], r.value.1, depth, recDepth)
  {
  }

  lemma EntryStep(done: seq<Entry>, key: string, k: Toks, depth: nat, recDepth: nat)
    requires |done| + 1 <= MAX_RECORD_ENTRIES && !HasKey(done, key) && !Head(k).ErrorToken?
    ensures ParseEntry(done, [KeyToken(key)] + ([Colon] + k), depth, recDepth) ==
      var r := ParseExpr(k, depth, recDepth);
      if r.None? then None else Some((Entry(key, r.value.0), r.value.1))
  {
    hide ParseBracketStep, ParseDotStep, ParsePrimary, HasKey;
  }

  // ---- The induction ----

  /** Anything in parentheses. */
  lemma {:induction false} ParenTrip(n: Node, k: Toks, depth: nat, recDepth: nat)
    requires WellFormed(n) && !Head(k).ErrorToken?
    ensures ParsePrimary([LParen] + Raw(n, [RParen] + k), depth, recDepth) ==
      if Fits(n, EXPR, depth, recDepth) then Some((n, k)) else None
    decreases n, 5
  {
    hide RecordClose, NodeLevel, StartsWithNumber, Raw, WellFormed, Fits;
    RawHead(n, [RParen] + k);
    PrimaryParen(Raw(n, [RParen] + k), depth, recDepth);
    ExprTrip(n, [RParen] + k, depth, recDepth);
  }

  /** Expressions at the loosest level. */
  lemma {:induction false} ExprTrip(n: Node, k: Toks, depth: nat, recDepth: nat)
    requires WellFormed(n) && Stops(Head(k), EXPR)
    ensures ParseExpr(Raw(n, k), depth, recDepth) == if Fits(n, EXPR, depth, recDepth) then Some((n, k)) else None
    decreases n, 4
  {
    hide ParseCall, ParsePrimary, Raw, FitsRaw, ParseAt, Stops;
    RawHead(n, k);
    if n.If? && depth + 1 <= MAX_PARSE_DEPTH {
      IfTrip(n, k, depth, recDepth);
    } else {
      ExprIsChain(Raw(n, k), depth, recDepth);
      if depth + 1 <= MAX_PARSE_DEPTH {
        StopsTighter(Head(k), EXPR, OR);
        LevelTrip(n, OR, k, depth + 1, recDepth);
      }
    }
  }

  /** A node read by a level at least as loose as its own. */
  lemma {:induction false} LevelTrip(n: Node, l: nat, k: Toks, depth: nat, recDepth: nat)
    requires WellFormed(n) && OR <= l <= NodeLevel(n) && Stops(Head(k), l)
    ensures ParseAt(l, Raw(n, k), depth, recDepth) == if FitsRaw(n, depth, recDepth) then Some((n, k)) else None
    decreases n, 3
  {
    hide ParseAt;
    RawHead(n, k);
    StopsTighter(Head(k), l, NodeLevel(n));
    RawTrip(n, k, depth, recDepth);
    LiftTo(l, NodeLevel(n), Raw(n, k), depth, recDepth);
  }

  /** Taking the token that was put in front. */
  lemma TakeOne(t: Token, k: Toks)
    requires !Head(k).ErrorToken?
    ensures Advance([t] + k) == Some(k) && Expect([t] + k, t) == Some(k)
  {
    assert ([t] + k)[1..] == k;
  }

  lemma {:induction false} IfTrip(n: Node, k: Toks, depth: nat, recDepth: nat)
    requires WellFormed(n) && n.If? && Stops(Head(k), EXPR) && depth + 1 <= MAX_PARSE_DEPTH
    ensures ParseExpr(Raw(n, k), depth, recDepth) == if FitsRaw(n, depth + 1, recDepth) then Some((n, k)) else None
    decreases n, 0
  {
    hide *;
    var k2 := [KwElse] + Print(n.els, EXPR, k);
    var k1 := [KwThen] + Print(n.thn, EXPR, k2);
    IfStops(Print(n.thn, EXPR, k2), Print(n.els, EXPR, k));
    IfUnfold(n, k, k1, k2, depth, recDepth);
    PrintedExpr(n.cond, k1, depth + 1, recDepth);
    PrintedExpr(n.thn, k2, depth + 1, recDepth);
    PrintedExpr(n.els, k, depth + 1, recDepth);
    ReadsIf(Print(n.cond, EXPR, k1), depth + 1, recDepth);
    ReadsThen(n.cond, Print(n.thn, EXPR, k2), depth + 1, recDepth);
    ReadsElse(n.cond, n.thn, Print(n.els, EXPR, k), depth + 1, recDepth);
  }

  lemma ReadsIf(ts: Toks, depth: nat, recDepth: nat)
    requires !Head(ts).ErrorToken?
    ensures ParseIf([KwIf] + ts, depth, recDepth) ==
      var r := ParseExpr(ts, depth, recDepth);
      if r.None? then None else IfBranches(r.value.0, r.value.1, depth, recDepth)
  {
    hide ParseExpr, IfBranches;
    TakeOne(KwIf, ts);
  }

  lemma ReadsThen(c: Node, ts: Toks, depth: nat, recDepth: nat)
    requires !Head(ts).ErrorToken?
    ensures IfBranches(c, [KwThen] + ts, depth, recDepth) ==
      var r := ParseExpr(ts, depth, recDepth);
      if r.None? then None else ElseBranch(c, r.value.0, r.value.1, depth, recDepth)
  {
    hide ParseExpr, ElseBranch;
    TakeOne(KwThen, ts);
  }

  lemma ReadsElse(c: Node, a: Node, ts: Toks, depth: nat, recDepth: nat)
    requires !Head(ts).ErrorToken?
    ensures ElseBranch(c, a, [KwElse] + ts, depth, recDepth) ==
      var r := ParseExpr(ts, depth, recDepth);
      if r.None? then None else Some((If(c, a, r.value.0), r.value.1))
  {
    hide ParseExpr;
    TakeOne(KwElse, ts);
  }

  lemma IfStops(a: Toks, b: Toks)
    ensures Stops(Head([KwThen] + a), EXPR) && Stops(Head([KwElse] + b), EXPR)
  {
  }

  lemma IfUnfold(n: Node, k: Toks, k1: Toks, k2: Toks, depth: nat, recDepth: nat)
    requires n.If? && WellFormed(n) && depth + 1 <= MAX_PARSE_DEPTH
    requires k2 == [KwElse] + Print(n.els, EXPR, k) && k1 == [KwThen] + Print(n.thn, EXPR, k2)
    ensures WellFormed(n.cond) && WellFormed(n.thn) && WellFormed(n.els)
    ensures Raw(n, k) == [KwIf] + Print(n.cond, EXPR, k1)
    ensures ParseExpr(Raw(n, k), depth, recDepth) == ParseIf(Raw(n, k), depth + 1, recDepth)
    ensures FitsRaw(n, depth + 1, recDepth) <==>
      Fits(n.cond, EXPR, depth + 1, recDepth) && Fits(n.thn, EXPR, depth + 1, recDepth) && Fits(n.els, EXPR, depth + 1, recDepth)
  {
    hide ParseChain;
  }

  /** Any other node, at its own level. */
  lemma {:induction false} RawTrip(n: Node, k: Toks, depth: nat, recDepth: nat)
    requires WellFormed(n) && NodeLevel(n) >= OR && Stops(Head(k), NodeLevel(n))
    ensures ParseAt(NodeLevel(n), Raw(n, k), depth, recDepth) ==
      if FitsRaw(n, depth, recDepth) then Some((n, k)) else None
    decreases n, 2
  {
    hide *;
    if n.Bin? && OpLevel(n.op) != REL {
      var l := OpLevel(n.op);
      ChainNode(n, k);
      BinTrip(n, k, depth, recDepth);
      AtChain(l, Raw(n, k), depth, recDepth);
      ChainStops(l, n, k, Spine(l, n), depth, recDepth);
    } else if NodeLevel(n) == REL {
      RelTrip(n, k, depth, recDepth);
      AtRelation(Raw(n, k), depth, recDepth);
    } else if NodeLevel(n) == UNARY {
      UnaryTrip(n, k, depth, recDepth);
      AtUnary(Raw(n, k), depth, recDepth);
    } else {
      MemberNode(n, k);
      MemberTrip(n, k, depth, recDepth);
      AtMember(Raw(n, k), depth, recDepth);
      MemberStops(n, k, Steps(n), depth, recDepth);
    }
  }

  lemma ChainNode(n: Node, k: Toks)
    requires n.Bin? && OpLevel(n.op) != REL && Stops(Head(k), NodeLevel(n))
    ensures NodeLevel(n) == OpLevel(n.op) && Stops(Head(k), OpLevel(n.op) + 1)
    ensures var l := OpLevel(n.op); l == OR || l == AND || l == ADD || l == MUL
  {
  }

  lemma AtChain(l: nat, ts: Toks, depth: nat, recDepth: nat)
    requires l == OR || l == AND || l == ADD || l == MUL
    ensures ParseAt(l, ts, depth, recDepth) == ParseChain(ChainLevel(l), ts, depth, recDepth)
  {
    hide ParseChain;
  }

  lemma ChainStops(l: nat, n: Node, k: Toks, count: nat, depth: nat, recDepth: nat)
    requires l == OR || l == AND || l == ADD || l == MUL
    requires Stops(Head(k), l)
    ensures ChainRest(ChainLevel(l), n, k, count, depth, recDepth) == Some((n, k))
  {
    hide ParseOperand;
  }

  lemma AtRelation(ts: Toks, depth: nat, recDepth: nat)
    ensures ParseAt(REL, ts, depth, recDepth) == ParseRelation(ts, depth, recDepth)
  {
    hide ParseRelation;
  }

  lemma AtMember(ts: Toks, depth: nat, recDepth: nat)
    ensures ParseAt(MEMBER, ts, depth, recDepth) == ParseMember(ts, depth, recDepth)
  {
    hide ParseMember;
  }

  lemma PrimaryMember(ts: Toks, depth: nat, recDepth: nat)
    ensures ParseMember(ts, depth, recDepth) ==
      match ParsePrimary(ts, depth, recDepth)
      case None => None
      case Some((n, rest)) => MemberRest(n, rest, 0, depth, recDepth)
  {
    hide ParsePrimary, MemberRest;
  }

  lemma MemberNode(n: Node, k: Toks)
    requires NodeLevel(n) >= OR && NodeLevel(n) != REL && NodeLevel(n) != UNARY && !(n.Bin? && OpLevel(n.op) != REL)
    requires Stops(Head(k), NodeLevel(n))
    ensures NodeLevel(n) == MEMBER && !Head(k).ErrorToken? && Head(k) != LParen
  {
  }

  lemma MemberStops(n: Node, k: Toks, count: nat, depth: nat, recDepth: nat)
    requires Stops(Head(k), MEMBER)
    ensures MemberRest(n, k, count, depth, recDepth) == Some((n, k))
  {
    hide ParseStep;
  }

  lemma {:induction false} BinTrip(n: Node, k: Toks, depth: nat, recDepth: nat)
    requires WellFormed(n) && n.Bin? && OpLevel(n.op) != REL && Stops(Head(k), OpLevel(n.op) + 1)
    ensures var l := OpLevel(n.op);
      ParseChain(ChainLevel(l), Raw(n, k), depth, recDepth) ==
        if FitsRaw(n, depth, recDepth) then ChainRest(ChainLevel(l), n, k, Spine(l, n), depth, recDepth) else None
    decreases n, 0
  {
    hide ChainRest, ParseRelation, ParseUnary, ParseMember, Print, Raw, WellFormed, FitEntries;
    var l := OpLevel(n.op);
    var k1 := Print(n.right, l + 1, k);
    BinFacts(n, k, depth, recDepth);
    PrintHead(n.right, l + 1, k);
    ChainTrip(l, n.left, [Oper(n.op)] + k1, depth, recDepth);
    ChainStep(ChainLevel(l), n.left, n.op, k1, Spine(l, n.left), depth, recDepth);
    RoundTrip(n.right, l + 1, k, depth, recDepth);
    assert ParseOperand(ChainLevel(l), k1, depth, recDepth) == ParseAt(l + 1, k1, depth, recDepth);
  }

  lemma {:induction false} ChainTrip(l: nat, n: Node, k: Toks, depth: nat, recDepth: nat)
    requires l == OR || l == AND || l == ADD || l == MUL
    requires WellFormed(n) && Stops(Head(k), l + 1)
    ensures ParseChain(ChainLevel(l), Print(n, l, k), depth, recDepth) ==
      if Fits(n, l, depth, recDepth) then ChainRest(ChainLevel(l), n, k, Spine(l, n), depth, recDepth) else None
    decreases n, 8
  {
    hide *;
    ChainShape(l, n, k, depth, recDepth);
    if n.Bin? && OpLevel(n.op) == l {
      BinTrip(n, k, depth, recDepth);
    } else {
      RoundTrip(n, l + 1, k, depth, recDepth);
      ChainBegins(l, Print(n, l + 1, k), depth, recDepth);
    }
  }

  /** A node of the chain's own level is printed as it is, any other one as the next tighter level prints it. */
  lemma ChainShape(l: nat, n: Node, k: Toks, depth: nat, recDepth: nat)
    requires l == OR || l == AND || l == ADD || l == MUL
    ensures l + 1 <= MEMBER && (n.Bin? && OpLevel(n.op) == l ==> OpLevel(n.op) != REL)
    ensures n.Bin? && OpLevel(n.op) == l ==>
      Print(n, l, k) == Raw(n, k) && (Fits(n, l, depth, recDepth) <==> FitsRaw(n, depth, recDepth))
    ensures !(n.Bin? && OpLevel(n.op) == l) ==>
      Print(n, l, k) == Print(n, l + 1, k) && Spine(l, n) == 0 && (Fits(n, l, depth, recDepth) <==> Fits(n, l + 1, depth, recDepth))
  {
    hide Raw, FitsRaw;
  }

  /** A chain begins with an operand of the next tighter level. */
  lemma ChainBegins(l: nat, ts: Toks, depth: nat, recDepth: nat)
    requires l == OR || l == AND || l == ADD || l == MUL
    ensures ParseChain(ChainLevel(l), ts, depth, recDepth) ==
      match ParseAt(l + 1, ts, depth, recDepth)
      case None => None
      case Some((n, rest)) => ChainRest(ChainLevel(l), n, rest, 0, depth, recDepth)
  {
    OperandIsTighter(l, ts, depth, recDepth);
    hide ParseOperand, ChainRest;
  }

  lemma OperandIsTighter(l: nat, ts: Toks, depth: nat, recDepth: nat)
    requires l == OR || l == AND || l == ADD || l == MUL
    ensures ParseOperand(ChainLevel(l), ts, depth, recDepth) == ParseAt(l + 1, ts, depth, recDepth)
  {
  }

  /** A parenthesised expression as a member expression without steps. */
  lemma {:induction false} ParenMember(n: Node, k: Toks, depth: nat, recDepth: nat)
    requires WellFormed(n) && Stops(Head(k), MEMBER)
    ensures ParseMember([LParen] + Raw(n, [RParen] + k), depth, recDepth) ==
      if Fits(n, EXPR, depth, recDepth) then Some((n, k)) else None
    decreases n, 6
  {
    hide Raw, WellFormed, FitsRaw;
    ParenTrip(n, k, depth, recDepth);
  }

  /** Everything: n printed at level l, followed by tokens that cannot continue it. */
  lemma {:induction false} RoundTrip(n: Node, l: nat, k: Toks, depth: nat, recDepth: nat)
    requires WellFormed(n) && l <= MEMBER && Stops(Head(k), l)
    ensures ParseAt(l, Print(n, l, k), depth, recDepth) ==
      if Fits(n, l, depth, recDepth) then Some((n, k)) else None
    decreases n, 7
  {
    hide ParseExpr, ParseChain, ParseRelation, OpLevel, NodeLevel, StartsWithNumber, Raw, WellFormed, FitsRaw,
      ChainLevel, Stops, Starts;
    PrintHead(n, l, k);
    StopsTighter(Head(k), l, MEMBER);
    if l == EXPR {
      ExprTrip(n, k, depth, recDepth);
    } else if NodeLevel(n) >= l {
      LevelTrip(n, l, k, depth, recDepth);
    } else {
      ParenMember(n, k, depth, recDepth);
      LiftTo(l, MEMBER, Print(n, l, k), depth, recDepth);
    }
  }

  lemma {:induction false} RelTrip(n: Node, k: Toks, depth: nat, recDepth: nat)
    requires WellFormed(n) && NodeLevel(n) == REL && Stops(Head(k), REL)
    ensures ParseRelation(Raw(n, k), depth, recDepth) == if FitsRaw(n, depth, recDepth) then Some((n, k)) else None
    decreases n, 1
  {
    hide *;
    match n
    case Bin(op, left, right) =>
      RelIsCompare(n);
      CompareTrip(n, k, depth, recDepth);
    case Has(obj, attr) =>
      HasShape(obj, attr, k, depth, recDepth);
      RoundTrip(obj, ADD, [KwHas] + ([KeyToken(attr)] + k), depth, recDepth);
      RelationReads(Raw(n, k), depth, recDepth);
      RelationHas(obj, attr, k, depth, recDepth);
    case Like(obj, pattern) =>
      LikeShape(obj, pattern, k, depth, recDepth);
      RoundTrip(obj, ADD, [KwLike] + ([PatternToken(pattern)] + k), depth, recDepth);
      RelationReads(Raw(n, k), depth, recDepth);
      RelationLike(obj, pattern, k, depth, recDepth);
    case Is(obj, ty, inEntity) =>
      IsShape(obj, ty, inEntity, k, depth, recDepth);
      RoundTrip(obj, ADD, [KwIs] + TypeTokens(Segments(ty), PrintIn(inEntity, k)), depth, recDepth);
      RelationReads(Raw(n, k), depth, recDepth);
      IsTrip(obj, ty, inEntity, k, depth, recDepth);
    case _ =>
      RelKinds(n);
  }

  lemma RelKinds(n: Node)
    requires NodeLevel(n) == REL
    ensures n.Bin? || n.Has? || n.Like? || n.Is?
  {
  }

  lemma RelIsCompare(n: Node)
    requires n.Bin? && NodeLevel(n) == REL
    ensures OpLevel(n.op) == REL
  {
  }

  lemma RelationReads(ts: Toks, depth: nat, recDepth: nat)
    ensures ADD <= MEMBER
    ensures ParseRelation(ts, depth, recDepth) ==
      match ParseAt(ADD, ts, depth, recDepth)
      case None => None
      case Some((left, rest)) => RelationRest(left, rest, depth, recDepth)
  {
    hide ParseChain, RelationRest;
  }

  lemma HasShape(obj: Node, attr: string, k: Toks, depth: nat, recDepth: nat)
    requires Stops(Head(k), REL)
    ensures var n, k1 := Has(obj, attr), [KwHas] + ([KeyToken(attr)] + k);
      && Raw(n, k) == Print(obj, ADD, k1) && Stops(Head(k1), ADD) && (WellFormed(n) <==> WellFormed(obj))
      && (FitsRaw(n, depth, recDepth) <==> Fits(obj, ADD, depth, recDepth))
    ensures ADD <= MEMBER && !Head(k).ErrorToken?
  {
    hide Print, Fits, KeyToken;
  }

  lemma LikeShape(obj: Node, pattern: string, k: Toks, depth: nat, recDepth: nat)
    requires Stops(Head(k), REL)
    ensures var n, k1 := Like(obj, pattern), [KwLike] + ([PatternToken(pattern)] + k);
      && Raw(n, k) == Print(obj, ADD, k1) && Stops(Head(k1), ADD)
      && (WellFormed(n) <==> Pattern.NoDoubleWild(pattern) && WellFormed(obj))
      && (FitsRaw(n, depth, recDepth) <==> Fits(obj, ADD, depth, recDepth))
    ensures ADD <= MEMBER && !Head(k).ErrorToken?
  {
    hide Print, Fits, PatternToken, Pattern.NoDoubleWild;
  }

  lemma IsShape(obj: Node, ty: string, inEntity: Option<Node>, k: Toks, depth: nat, recDepth: nat)
    requires Stops(Head(k), REL)
    ensures var n, k1 := Is(obj, ty, inEntity), [KwIs] + TypeTokens(Segments(ty), PrintIn(inEntity, k));
      && Raw(n, k) == Print(obj, ADD, k1) && Stops(Head(k1), ADD)
      && (WellFormed(n) <==> IsTypeName(ty) && WellFormed(obj) && (inEntity.Some? ==> WellFormed(inEntity.value)))
      && (FitsRaw(n, depth, recDepth) <==>
            Fits(obj, ADD, depth, recDepth) && (inEntity.Some? ==> Fits(inEntity.value, ADD, depth, recDepth)))
    ensures ADD <= MEMBER
  {
    hide Print, Fits, PrintIn, TypeTokens, Segments, IsTypeName;
  }

  lemma {:induction false} CompareTrip(n: Node, k: Toks, depth: nat, recDepth: nat)
    requires WellFormed(n) && n.Bin? && OpLevel(n.op) == REL && Stops(Head(k), REL)
    ensures ParseRelation(Raw(n, k), depth, recDepth) == if FitsRaw(n, depth, recDepth) then Some((n, k)) else None
    decreases n, 0
  {
    hide ParseStep, ParsePrimary, NodeLevel, StartsWithNumber, PatternToken, IsPlainName, AttrTokens, CallTokens,
      KeyToken, TypeTokens, Print, PrintArg, PrintIn, PrintElts, PrintEntries, IsTypeName, DistinctKeys, Spine,
      Steps, Fits, FitElts, FitEntries, InInt64;
    var k1 := Print(n.right, ADD, k);
    PrintHead(n.right, ADD, k);
    RoundTrip(n.left, ADD, [Oper(n.op)] + k1, depth, recDepth);
    RoundTrip(n.right, ADD, k, depth, recDepth);
  }

  lemma RelationHas(obj: Node, attr: string, k: Toks, depth: nat, recDepth: nat)
    requires !Head(k).ErrorToken?
    ensures RelationRest(obj, [KwHas] + ([KeyToken(attr)] + k), depth, recDepth) == Some((Has(obj, attr), k))
  {
    hide ParsePrimary;
  }

  lemma RelationLike(obj: Node, pattern: string, k: Toks, depth: nat, recDepth: nat)
    requires Pattern.NoDoubleWild(pattern) && !Head(k).ErrorToken?
    ensures RelationRest(obj, [KwLike] + ([PatternToken(pattern)] + k), depth, recDepth) == Some((Like(obj, pattern), k))
  {
    hide ParseCall, ParsePrimary;
    Pattern.CompileSpell(pattern);
  }

  lemma RelationIs(obj: Node, ty: string, k: Toks, depth: nat, recDepth: nat)
    requires IsTypeName(ty) && Stops(Head(k), MEMBER)
    ensures RelationRest(obj, [KwIs] + TypeTokens(Segments(ty), k), depth, recDepth) ==
      if Head(k) != Oper(In) then Some((Is(obj, ty, None), k))
      else
        var t3 := Advance(k);
        if t3.None? then None
        else
          var r := ParseChain(AddLevel, t3.value, depth, recDepth);
          if r.None? then None else Some((Is(obj, ty, Some(r.value.0)), r.value.1))
  {
    hide ParsePrimary, Lexer.Keyword;
    ReadTypeName(ty, k);
    TypeTokensNonEmpty(Segments(ty), k);
  }

  lemma {:induction false} IsTrip(obj: Node, ty: string, inEntity: Option<Node>, k: Toks, depth: nat, recDepth: nat)
    requires IsTypeName(ty) && (inEntity.Some? ==> WellFormed(inEntity.value)) && Stops(Head(k), REL)
    ensures RelationRest(obj, [KwIs] + TypeTokens(Segments(ty), PrintIn(inEntity, k)), depth, recDepth) ==
      if inEntity.Some? ==> Fits(inEntity.value, ADD, depth, recDepth) then Some((Is(obj, ty, inEntity), k)) else None
    decreases inEntity, 0
  {
    hide RelationRest, TypeTokens, Print, WellFormed, FitsRaw, Starts;
    RelationIs(obj, ty, PrintIn(inEntity, k), depth, recDepth);
    if inEntity.Some? {
      PrintHead(inEntity.value, ADD, k);
      RoundTrip(inEntity.value, ADD, k, depth, recDepth);
    }
  }

  lemma {:induction false} UnaryTrip(n: Node, k: Toks, depth: nat, recDepth: nat)
    requires WellFormed(n) && NodeLevel(n) == UNARY && Stops(Head(k), UNARY)
    ensures ParseUnary(Raw(n, k), depth, recDepth) == if FitsRaw(n, depth, recDepth) then Some((n, k)) else None
    decreases n, 1
  {
    hide ChainRest, ParseRelation, ParseUnary, ParseBracketStep, ParseDotStep, ParsePrimary;
    match n
    case LongLit(i) => ReadNegative(i, k, depth, recDepth);
    case Not(e) =>
      PrintHead(e, UNARY, k);
      RoundTrip(e, UNARY, k, depth + 1, recDepth);
      UnaryBang([Bang] + Print(e, UNARY, k), depth, recDepth);
    case Neg(_) => NegTrip(n, k, depth, recDepth);
  }

  lemma ReadNegative(i: int, k: Toks, depth: nat, recDepth: nat)
    requires INT64_MIN <= i < 0 && !Head(k).ErrorToken?
    ensures ParseUnary(Raw(LongLit(i), k), depth, recDepth) == Some((LongLit(i), k))
  {
    hide ParseCall, ParsePrimary;
  }

  lemma UnaryBang(ts: Toks, depth: nat, recDepth: nat)
    requires ts != [] && ts[0] == Bang && !Head(ts[1..]).ErrorToken?
    ensures ParseUnary(ts, depth, recDepth) ==
      if depth + 1 > MAX_PARSE_DEPTH then None
      else
        var r := ParseUnary(ts[1..], depth + 1, recDepth);
        if r.None? then None else Some((Not(r.value.0), r.value.1))
  {
  }

  lemma UnaryMinus(ts: Toks, depth: nat, recDepth: nat)
    requires ts != [] && ts[0] == Oper(Minus) && !Head(ts[1..]).ErrorToken? && !Head(ts[1..]).Number?
    ensures ParseUnary(ts, depth, recDepth) ==
      if depth + 1 > MAX_PARSE_DEPTH then None
      else
        var r := ParseUnary(ts[1..], depth + 1, recDepth);
        if r.None? then None else Some((Neg(r.value.0), r.value.1))
  {
  }

  lemma {:induction false} NegTrip(n: Node, k: Toks, depth: nat, recDepth: nat)
    requires WellFormed(n) && n.Neg? && Stops(Head(k), UNARY)
    ensures ParseUnary(Raw(n, k), depth, recDepth) == if FitsRaw(n, depth, recDepth) then Some((n, k)) else None
    decreases n, 0
  {
    hide *;
    var e := n.operand;
    NegFacts(n, k, depth, recDepth);
    UnaryLevel(e, k);
    if StartsWithNumber(e) {
      var ts := [LParen] + Raw(e, [RParen] + k);
      ParenMember(e, k, depth + 1, recDepth);
      ParenUnary(ts, depth + 1, recDepth);
      MinusBefore(ts, depth, recDepth);
      TooTight(e, k, depth + 1, recDepth);
    } else {
      RoundTrip(e, UNARY, k, depth + 1, recDepth);
      AtUnary(Print(e, UNARY, k), depth + 1, recDepth);
      MinusBefore(Print(e, UNARY, k), depth, recDepth);
    }
  }

  lemma UnaryLevel(e: Node, k: Toks)
    requires Stops(Head(k), UNARY)
    ensures UNARY <= MEMBER && Stops(Head(k), MEMBER)
    ensures !StartsWithNumber(e) ==> OperandHead(Print(e, UNARY, k))
    ensures OperandHead([LParen] + Raw(e, [RParen] + k)) && Head([LParen] + Raw(e, [RParen] + k)) == LParen
  {
    hide Print, Raw;
    PrintHead(e, UNARY, k);
  }

  /** What an operand of a minus sign that is not folded begins with. */
  predicate OperandHead(ts: Toks) {
    ts != [] && !ts[0].ErrorToken? && !ts[0].Number?
  }

  lemma MinusBefore(ts: Toks, depth: nat, recDepth: nat)
    requires OperandHead(ts)
    ensures ParseUnary([Oper(Minus)] + ts, depth, recDepth) ==
      if depth + 1 > MAX_PARSE_DEPTH then None
      else
        var r := ParseUnary(ts, depth + 1, recDepth);
        if r.None? then None else Some((Neg(r.value.0), r.value.1))
  {
    hide ParseUnary;
    assert ([Oper(Minus)] + ts)[1..] == ts;
    UnaryMinus([Oper(Minus)] + ts, depth, recDepth);
  }

  lemma ParenUnary(ts: Toks, depth: nat, recDepth: nat)
    requires Head(ts) == LParen
    ensures ParseUnary(ts, depth, recDepth) == ParseMember(ts, depth, recDepth)
  {
    hide ParseMember;
  }

  lemma AtUnary(ts: Toks, depth: nat, recDepth: nat)
    ensures ParseAt(UNARY, ts, depth, recDepth) == ParseUnary(ts, depth, recDepth)
  {
    hide ParseUnary;
  }

  /** Nothing is printed without parentheses above the tightest level. */
  lemma TooTight(e: Node, k: Toks, depth: nat, recDepth: nat)
    ensures Print(e, MEMBER + 1, k) == [LParen] + Raw(e, [RParen] + k)
    ensures Fits(e, MEMBER + 1, depth, recDepth) <==> Fits(e, EXPR, depth, recDepth)
  {
    hide Raw, FitsRaw;
  }

  /** A member chain: the loop arrives at n with its steps counted. */
  lemma {:induction false} MemberTrip(n: Node, k: Toks, depth: nat, recDepth: nat)
    requires WellFormed(n) && !Head(k).ErrorToken? && Head(k) != LParen && NodeLevel(n) == MEMBER
    ensures ParseMember(Raw(n, k), depth, recDepth) ==
      if FitsRaw(n, depth, recDepth) then MemberRest(n, k, Steps(n), depth, recDepth) else None
    decreases n, 0
  {
    hide MemberRest, ParseStep, ParsePrimary, ParseSet, ParseRecord, Lexer.Unquote, Lexer.QuoteByte;
    match n
    case GetAttr(obj, attr) =>
      AttrTrip(obj, attr, k, depth, recDepth);
    case Call(obj, callee, arg) =>
      StepTrip(obj, callee, arg, k, depth, recDepth);
    case SetLit(elts) =>
      SetTrip(elts, k, depth, recDepth);
      PrimaryBracket(Raw(n, k), depth, recDepth);
    case RecordLit(entries) =>
      RecordTrip(entries, k, depth, recDepth);
      PrimaryBracket(Raw(n, k), depth, recDepth);
    case EntityRef(ty, id) =>
      ReadEntity(ty, id, k, depth, recDepth);
    case _ =>
      ReadSimple(n, k, depth, recDepth);
  }

  /** One turn of the member loop. */
  lemma NextStep(obj: Node, ts: Toks, count: nat, depth: nat, recDepth: nat)
    requires StepHead(ts)
    ensures ts != []
    ensures MemberRest(obj, ts, count, depth, recDepth) ==
      if count + 1 > MAX_MEMBER_CHAIN then None
      else match ParseStep(obj, ts, depth, recDepth)
        case None => None
        case Some((step, rest)) => MemberRest(step, rest, count + 1, depth, recDepth)
  {
    hide ParseStep;
  }

  /** Attribute access on a printed object. */
  lemma {:induction false} AttrTrip(obj: Node, attr: string, k: Toks, depth: nat, recDepth: nat)
    requires WellFormed(obj) && attr != "" && !Head(k).ErrorToken? && Head(k) != LParen
    ensures var n := GetAttr(obj, attr);
      ParseMember(Raw(n, k), depth, recDepth) ==
      if FitsRaw(n, depth, recDepth) then MemberRest(n, k, Steps(n), depth, recDepth) else None
    decreases obj, 10
  {
    AttrFacts(obj, attr, k, depth, recDepth);
    hide *;
    var k1 := AttrTokens(attr, k);
    BaseTrip(obj, k1, depth, recDepth);
    NextStep(obj, k1, Steps(obj), depth, recDepth);
    ReadAttr(obj, attr, k, depth, recDepth);
  }

  lemma AttrFacts(obj: Node, attr: string, k: Toks, depth: nat, recDepth: nat)
    ensures var n := GetAttr(obj, attr);
      && Raw(n, k) == Print(obj, MEMBER, AttrTokens(attr, k)) && Steps(n) == Steps(obj) + 1
      && (FitsRaw(n, depth, recDepth) <==> Steps(obj) + 1 <= MAX_MEMBER_CHAIN && Fits(obj, MEMBER, depth, recDepth))
    ensures StepHead(AttrTokens(attr, k))
  {
    hide Print, Fits;
  }

  /** Where a member step begins. */
  predicate StepHead(ts: Toks) {
    Head(ts) == Dot || Head(ts) == LBracket
  }

  /** A method call on a printed object. */
  lemma {:induction false} StepTrip(obj: Node, callee: string, arg: Option<Node>, k: Toks, depth: nat, recDepth: nat)
    requires WellFormed(Call(obj, callee, arg)) && !Head(k).ErrorToken? && Head(k) != LParen
    ensures var n := Call(obj, callee, arg);
      ParseMember(Raw(n, k), depth, recDepth) ==
      if FitsRaw(n, depth, recDepth) then MemberRest(n, k, Steps(n), depth, recDepth) else None
    decreases Call(obj, callee, arg), -1
  {
    CallFacts(obj, callee, arg, k, depth, recDepth);
    hide *;
    var k1 := CallTokens(callee, PrintArg(arg, [RParen] + k));
    BaseTrip(obj, k1, depth, recDepth);
    NextStep(obj, k1, Steps(obj), depth, recDepth);
    CallTrip(obj, callee, arg, k, depth, recDepth);
  }

  lemma CallFacts(obj: Node, callee: string, arg: Option<Node>, k: Toks, depth: nat, recDepth: nat)
    ensures var n := Call(obj, callee, arg);
      && Raw(n, k) == Print(obj, MEMBER, CallTokens(callee, PrintArg(arg, [RParen] + k)))
      && Steps(n) == Steps(obj) + 1
      && FitsRaw(n, depth, recDepth) == (Steps(obj) + 1 <= MAX_MEMBER_CHAIN && Fits(obj, MEMBER, depth, recDepth)
                                         && (arg.Some? ==> Fits(arg.value, EXPR, depth, recDepth)))
      && (WellFormed(n) <==> IsPlainName(callee) && WellFormed(obj) && (arg.Some? ==> WellFormed(arg.value)))
    ensures StepHead(CallTokens(callee, PrintArg(arg, [RParen] + k)))
  {
    hide Print, Fits, PrintArg, IsPlainName;
  }

  /** The object of a member step. */
  lemma {:induction false} BaseTrip(n: Node, k: Toks, depth: nat, recDepth: nat)
    requires WellFormed(n) && StepHead(k)
    ensures ParseMember(Print(n, MEMBER, k), depth, recDepth) ==
      if Fits(n, MEMBER, depth, recDepth) then MemberRest(n, k, Steps(n), depth, recDepth) else None
    decreases n, 9
  {
    hide ParseCall, ParsePrimary;
    if NodeLevel(n) >= MEMBER {
      MemberTrip(n, k, depth, recDepth);
    } else {
      ParenTrip(n, k, depth, recDepth);
    }
  }

  lemma ReadAttr(obj: Node, attr: string, k: Toks, depth: nat, recDepth: nat)
    requires attr != "" && !Head(k).ErrorToken? && Head(k) != LParen
    ensures ParseStep(obj, AttrTokens(attr, k), depth, recDepth) == Some((GetAttr(obj, attr), k))
  {
    if IsPlainName(attr) {
      ReadDotAttr(obj, attr, k, depth, recDepth);
    } else {
      ReadBracketAttr(obj, attr, k, depth, recDepth);
    }
    hide ParseStep, IsPlainName;
  }

  lemma ReadDotAttr(obj: Node, attr: string, k: Toks, depth: nat, recDepth: nat)
    requires IsPlainName(attr) && !Head(k).ErrorToken? && Head(k) != LParen
    ensures ParseStep(obj, [Dot] + ([Lexer.NameToken(attr)] + k), depth, recDepth) == Some((GetAttr(obj, attr), k))
  {
    hide ParseCall;
    assert !Lexer.NameToken(attr).ErrorToken?;
    TakeOne(Dot, [Lexer.NameToken(attr)] + k);
    TakeOne(Lexer.NameToken(attr), k);
  }

  lemma ReadBracketAttr(obj: Node, attr: string, k: Toks, depth: nat, recDepth: nat)
    requires attr != "" && !Head(k).ErrorToken?
    ensures ParseStep(obj, [LBracket] + ([StrToken(attr)] + ([RBracket] + k)), depth, recDepth) == Some((GetAttr(obj, attr), k))
  {
    hide ParseDotStep, Lexer.Quote;
    TakeOne(LBracket, [StrToken(attr)] + ([RBracket] + k));
    TakeOne(StrToken(attr), [RBracket] + k);
    TakeOne(RBracket, k);
  }

  lemma {:induction false} CallTrip(obj: Node, callee: string, arg: Option<Node>, k: Toks, depth: nat, recDepth: nat)
    requires IsPlainName(callee) && (arg.Some? ==> WellFormed(arg.value)) && !Head(k).ErrorToken?
    ensures ParseStep(obj, CallTokens(callee, PrintArg(arg, [RParen] + k)), depth, recDepth) ==
      if arg.Some? ==> Fits(arg.value, EXPR, depth, recDepth) then Some((Call(obj, callee, arg), k)) else None
    decreases arg, 0
  {
    hide ParseExpr, ParseOperand, ChainRest, ParseRelation, ParseMember, Print, WellFormed, Fits, ChainLevel, Starts;
    var k1 := PrintArg(arg, [RParen] + k);
    if arg.Some? {
      PrintHead(arg.value, EXPR, [RParen] + k);
      RoundTrip(arg.value, EXPR, [RParen] + k, depth, recDepth);
    }
    StepCall(obj, callee, k1, depth, recDepth);
  }

  lemma StepCall(obj: Node, callee: string, k: Toks, depth: nat, recDepth: nat)
    requires IsPlainName(callee) && !Head(k).ErrorToken?
    ensures ParseStep(obj, CallTokens(callee, k), depth, recDepth) == ParseCall(obj, callee, [LParen] + k, depth, recDepth)
  {
    hide ParseCall;
  }

  lemma {:induction false} SetTrip(elts: seq<Node>, k: Toks, depth: nat, recDepth: nat)
    requires |elts| <= MAX_SET_ELEMENTS && forall i :: 0 <= i < |elts| ==> WellFormed(elts[i])
    requires !Head(k).ErrorToken?
    ensures ParseSet(Raw(SetLit(elts), k), depth, recDepth) ==
      if FitElts(elts, depth, recDepth) then Some((SetLit(elts), k)) else None
    decreases elts, 1
  {
    hide ParseExpr, ParseRelation, ParseEntityRef, SetRest, ParseRecord, Lexer.Unquote, StrToken, KeyToken, Segments,
      TypeTokens, Print, PrintArg, PrintIn, PrintEntries, WellFormed, Fits, Starts;
    if elts != [] {
      var k1 := PrintElts(elts[1..], [RBracket] + k);
      PrintHead(elts[0], EXPR, k1);
      RoundTrip(elts[0], EXPR, k1, depth, recDepth);
      EltsTrip([elts[0]], elts[1..], k, depth, recDepth);
      assert [elts[0]] + elts[1..] == elts;
    }
  }

  lemma {:induction false} EltsTrip(done: seq<Node>, elts: seq<Node>, k: Toks, depth: nat, recDepth: nat)
    requires |done| + |elts| <= MAX_SET_ELEMENTS && forall i :: 0 <= i < |elts| ==> WellFormed(elts[i])
    ensures SetRest(done, PrintElts(elts, [RBracket] + k), depth, recDepth) ==
      if FitElts(elts, depth, recDepth) then Some((done + elts, [RBracket] + k)) else None
    decreases elts, 0
  {
    hide *;
    var K := [RBracket] + k;
    EltsEnd(done, k);
    if elts == [] {
      assert done + elts == done;
    } else {
      var k1 := PrintElts(elts[1..], K);
      EltsUnfold(elts, K, depth, recDepth);
      EltsHead(elts[1..], K);
      PrintedExpr(elts[0], k1, depth, recDepth);
      EltStep(done, Print(elts[0], EXPR, k1), depth, recDepth);
      if !Fits(elts[0], EXPR, depth, recDepth) {
        return;
      }
      EltsTrip(done + [elts[0]], elts[1..], k, depth, recDepth);
      assert done + [elts[0]] + elts[1..] == done + elts;
    }
  }

  lemma EltsEnd(done: seq<Node>, k: Toks)
    ensures Stops(Head([RBracket] + k), EXPR)
    ensures forall depth, recDepth :: SetRest(done, [RBracket] + k, depth, recDepth) == Some((done, [RBracket] + k))
    ensures PrintElts([], [RBracket] + k) == [RBracket] + k
    ensures forall depth, recDepth :: FitElts([], depth, recDepth)
  {
  }

  lemma EltsUnfold(elts: seq<Node>, k: Toks, depth: nat, recDepth: nat)
    requires elts != []
    ensures PrintElts(elts, k) == [Comma] + Print(elts[0], EXPR, PrintElts(elts[1..], k))
    ensures FitElts(elts, depth, recDepth) <==> Fits(elts[0], EXPR, depth, recDepth) && FitElts(elts[1..], depth, recDepth)
  {
  }

  /** A printed subexpression, whatever follows it. */
  lemma {:induction false} PrintedExpr(n: Node, k: Toks, depth: nat, recDepth: nat)
    requires WellFormed(n) && Stops(Head(k), EXPR)
    ensures ParseExpr(Print(n, EXPR, k), depth, recDepth) == if Fits(n, EXPR, depth, recDepth) then Some((n, k)) else None
    ensures !Head(Print(n, EXPR, k)).ErrorToken?
    decreases n, 10
  {
    hide Raw, WellFormed, FitsRaw;
    PrintHead(n, EXPR, k);
    RoundTrip(n, EXPR, k, depth, recDepth);
  }

  lemma EltsHead(elts: seq<Node>, k: Toks)
    requires Stops(Head(k), EXPR)
    ensures Stops(Head(PrintElts(elts, k)), EXPR)
  {
  }

  lemma RecordOpen(k: Toks, depth: nat, recDepth: nat)
    requires !Head(k).ErrorToken? && Head(k) != RBrace
    ensures ParseRecord([LBrace] + k, depth, recDepth) ==
      if recDepth + 1 > MAX_RECORD_DEPTH then None else RecordClose([], k, depth, recDepth + 1)
  {
  }

  lemma EmptyRecord(k: Toks, depth: nat, recDepth: nat)
    requires !Head(k).ErrorToken?
    ensures ParseRecord([LBrace] + ([RBrace] + k), depth, recDepth) ==
      if recDepth + 1 > MAX_RECORD_DEPTH then None else Some((RecordLit([]), k))
  {
  }

  lemma {:induction false} RecordTrip(entries: seq<Entry>, k: Toks, depth: nat, recDepth: nat)
    requires |entries| <= MAX_RECORD_ENTRIES && DistinctKeys(entries) && !Head(k).ErrorToken?
    requires forall i :: 0 <= i < |entries| ==> WellFormed(entries[i].value)
    ensures ParseRecord(Raw(RecordLit(entries), k), depth, recDepth) ==
      if FitsRaw(RecordLit(entries), depth, recDepth) then Some((RecordLit(entries), k)) else None
    decreases entries, 1
  {
    RecordShape(entries, k, depth, recDepth);
    hide *;
    if entries == [] {
      EmptyRecord(k, depth, recDepth);
    } else {
      EntriesHead(entries, [RBrace] + k);
      RecordOpen(PrintEntries(entries, [RBrace] + k), depth, recDepth);
      assert [] + entries == entries;
      EntriesTrip([], entries, k, depth, recDepth + 1);
      RecordEnds(PrintEntries(entries, [RBrace] + k), k, depth, recDepth + 1);
    }
  }

  lemma RecordShape(entries: seq<Entry>, k: Toks, depth: nat, recDepth: nat)
    ensures Raw(RecordLit(entries), k) ==
      [LBrace] + (if entries == [] then [RBrace] + k else PrintEntries(entries, [RBrace] + k))
    ensures FitsRaw(RecordLit(entries), depth, recDepth) <==>
      recDepth + 1 <= MAX_RECORD_DEPTH && FitEntries(entries, depth, recDepth + 1)
    ensures FitEntries([], depth, recDepth + 1)
  {
    hide PrintEntries;
  }

  lemma RecordEnds(ts: Toks, k: Toks, depth: nat, recDepth: nat)
    requires !Head(k).ErrorToken?
    ensures ParseEntries([], ts, depth, recDepth).None? ==> RecordClose([], ts, depth, recDepth) == None
    ensures forall all :: ParseEntries([], ts, depth, recDepth) == Some((all, [RBrace] + k)) ==>
      RecordClose([], ts, depth, recDepth) == Some((RecordLit(all), k))
  {
    hide ParseEntries;
    TakeOne(RBrace, k);
  }

  lemma EntriesHead(entries: seq<Entry>, k: Toks)
    requires entries != []
    ensures !Head(PrintEntries(entries, k)).ErrorToken? && Head(PrintEntries(entries, k)) != RBrace
  {
  }

  lemma {:induction false} EntriesTrip(done: seq<Entry>, entries: seq<Entry>, k: Toks, depth: nat, recDepth: nat)
    requires entries != [] && |done| + |entries| <= MAX_RECORD_ENTRIES && DistinctKeys(done + entries)
    requires forall i :: 0 <= i < |entries| ==> WellFormed(entries[i].value)
    ensures ParseEntries(done, PrintEntries(entries, [RBrace] + k), depth, recDepth) ==
      if FitEntries(entries, depth, recDepth) then Some((done + entries, [RBrace] + k)) else None
    decreases entries, 0
  {
    hide ParseChain, RelationRest, ParseUnary, StartsWithNumber, KeyToken, Print, WellFormed, Fits, ChainLevel,
      Starts;
    var e, K := entries[0], [RBrace] + k;
    var k1 := if |entries| == 1 then K else [Comma] + PrintEntries(entries[1..], K);
    assert PrintEntries(entries, K) == [KeyToken(e.key)] + ([Colon] + Print(e.value, EXPR, k1));
    assert FitEntries(entries, depth, recDepth) <==>
      Fits(e.value, EXPR, depth, recDepth) && FitEntries(entries[1..], depth, recDepth);
    NewKey(done, entries);
    PrintHead(e.value, EXPR, k1);
    RoundTrip(e.value, EXPR, k1, depth, recDepth);
    EntryStep(done, e.key, Print(e.value, EXPR, k1), depth, recDepth);
    if !Fits(e.value, EXPR, depth, recDepth) {
      return;
    }
    if |entries| > 1 {
      EntriesHead(entries[1..], K);
      EntriesTrip(done + [e], entries[1..], k, depth, recDepth);
    }
  }

  lemma NewKey(done: seq<Entry>, entries: seq<Entry>)
    requires entries != [] && DistinctKeys(done + entries)
    ensures !HasKey(done, entries[0].key) && entries[0] == Entry(entries[0].key, entries[0].value)
    ensures done + [entries[0]] + entries[1..] == done + entries
    ensures |entries| == 1 ==> done + [entries[0]] == done + entries && entries[1..] == []
  {
    assert (done + entries)[|done|] == entries[0];
    assert forall i :: 0 <= i < |done| ==> (done + entries)[i] == done[i];
  }

  /**
   * Parsing undoes printing. At any nesting, whatever follows (unless it would continue the
   * expression), the printed tokens of a well-formed expression parse to that expression and leave
   * exactly what follows, if and only if the expression fits the limits that are left; otherwise the
   * parser reports an error.
   */
  lemma ParsePrint(n: Node, k: Toks, depth: nat, recDepth: nat)
    requires WellFormed(n) && Stops(Head(k), EXPR)
    ensures ParseExpr(Print(n, EXPR, k), depth, recDepth) ==
      if Fits(n, EXPR, depth, recDepth) then Some((n, k)) else None
  {
    RoundTrip(n, EXPR, k, depth, recDepth);
  }
}
