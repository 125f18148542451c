/**
 * The grammar of expressions, declaratively. A phrase is a concrete syntax tree: it keeps what an expression
 * drops, such as parentheses, leading zeros, quotes around names and the comma behind the last entry of a
 * record. Shape says which phrases the grammar has, Within which of them keep the parser's limits.
 */
module Phrases {
  import opened Common
  import opened Digits
  import opened Syntax
  import opened Grammar
  import opened Printer
  import Pattern
  import RoundTrip

  datatype Phrase =
    | Truth(b: bool)
    | Variable(v: Var)
    | Digits(digits: DigitString)
    | Quoted(t: Token)
    | Extension(kind: ExtKind, t: Token)
    | Entity(parts: seq<string>, t: Token)
    | Parens(e: Phrase)
    | Elements(elts: seq<Phrase>)
    | Fields(fields: seq<Field>, comma: bool)
    | Access(obj: Phrase, name: Token)
    | Index(obj: Phrase, key: Token)
    | Invoke(obj: Phrase, name: Token, arg: Option<Phrase>)
    | NegDigits(digits: DigitString)
    | Negation(e: Phrase)
    | Complement(e: Phrase)
    | Operation(op: Op, left: Phrase, right: Phrase)
    | Presence(obj: Phrase, name: Token)
    | Matching(obj: Phrase, t: Token)
    | Typing(obj: Phrase, parts: seq<string>, target: Option<Phrase>)
    | Choice(cond: Phrase, thn: Phrase, els: Phrase)

  datatype Field = Field(key: Token, value: Phrase)

  // ---- Tokens with a value ----

  /** A string without the escape `\*`. */
  predicate IsPlain(t: Token) {
    t.Str? && !t.starEscape
  }

  /** An identifier, or one of the names of the extension types. */
  predicate IsBare(t: Token) {
    t.Ident? || t.KwExt?
  }

  /** What a name token spells, bare or as a string. */
  function NameOf(t: Token): string {
    match t
    case Ident(name) => name
    case KwExt(kind) => ExtName(kind)
    case Str(value, _, _) => value
    case _ => ""
  }

  function PatternOf(t: Token): string {
    if t.Str? && Pattern.Compiled(t.raw).Some? then Pattern.Compiled(t.raw).value else ""
  }

  // ---- The grammar ----

  function LevelOf(p: Phrase): (l: nat)
    ensures l <= MEMBER
  {
    match p
    case Choice(_, _, _) => EXPR
    case Operation(op, _, _) => OpLevel(op)
    case Presence(_, _) => REL
    case Matching(_, _) => REL
    case Typing(_, _, _) => REL
    case NegDigits(_) => UNARY
    case Negation(_) => UNARY
    case Complement(_) => UNARY
    case _ => MEMBER
  }

  /** The first token is a number. */
  predicate NumberFirst(p: Phrase) {
    match p
    case Digits(_) => true
    case Access(obj, _) => NumberFirst(obj)
    case Index(obj, _) => NumberFirst(obj)
    case Invoke(obj, _, _) => NumberFirst(obj)
    case _ => false
  }

  /** The phrases of the grammar. Operands are phrases of the levels that precedence and associativity demand. */
  predicate Shape(p: Phrase) {
    match p
    case Truth(_) => true
    case Variable(_) => true
    case Digits(_) => true
    case Quoted(t) => IsPlain(t)
    case Extension(_, t) => IsPlain(t)
    case Entity(parts, t) => parts != [] && IsPlain(t)
    case Parens(e) => Shape(e)
    case Elements(elts) => forall i :: 0 <= i < |elts| ==> Shape(elts[i])
    case Fields(fields, comma) =>
      && (comma ==> fields != [])
      && forall i :: 0 <= i < |fields| ==> (IsBare(fields[i].key) || IsPlain(fields[i].key)) && Shape(fields[i].value)
    case Access(obj, name) => IsBare(name) && LevelOf(obj) == MEMBER && Shape(obj)
    case Index(obj, key) => IsPlain(key) && key.value != "" && LevelOf(obj) == MEMBER && Shape(obj)
    case Invoke(obj, name, arg) => IsBare(name) && LevelOf(obj) == MEMBER && Shape(obj) && (arg.Some? ==> Shape(arg.value))
    case NegDigits(_) => true
    case Negation(e) => LevelOf(e) >= UNARY && !NumberFirst(e) && Shape(e)
    case Complement(e) => LevelOf(e) >= UNARY && Shape(e)
    case Operation(op, left, right) =>
      && LevelOf(left) >= (if OpLevel(op) == REL then ADD else OpLevel(op)) && LevelOf(right) > OpLevel(op)
      && Shape(left) && Shape(right)
    case Presence(obj, name) => (IsBare(name) || IsPlain(name)) && LevelOf(obj) >= ADD && Shape(obj)
    case Matching(obj, t) => t.Str? && Pattern.Compiled(t.raw).Some? && LevelOf(obj) >= ADD && Shape(obj)
    case Typing(obj, parts, target) =>
      && parts != [] && LevelOf(obj) >= ADD && Shape(obj)
      && (target.Some? ==> LevelOf(target.value) >= ADD && Shape(target.value))
    case Choice(cond, thn, els) => Shape(cond) && Shape(thn) && Shape(els)
  }

  // ---- The limits ----

  /** Operators of one level that are chained without parentheses. */
  function Operators(level: nat, p: Phrase): nat {
    if p.Operation? && OpLevel(p.op) == level then 1 + Operators(level, p.left) else 0
  }

  /** Member steps that are chained without parentheses. */
  function MemberSteps(p: Phrase): nat {
    match p
    case Access(obj, _) => 1 + MemberSteps(obj)
    case Index(obj, _) => 1 + MemberSteps(obj)
    case Invoke(obj, _, _) => 1 + MemberSteps(obj)
    case _ => 0
  }

  predicate DistinctNames(fields: seq<Field>) {
    forall i, j :: 0 <= i < j < |fields| ==> NameOf(fields[i].key) != NameOf(fields[j].key)
  }

  /** p keeps the limits where a whole expression is expected. */
  predicate WithinExpr(p: Phrase, depth: nat, recDepth: nat)
    decreases p, 1
  {
    depth < 64 && Within(p, depth + 1, recDepth)
  }

  predicate Within(p: Phrase, depth: nat, recDepth: nat)
    decreases p, 0
  {
    match p
    case Truth(_) => true
    case Variable(_) => true
    case Digits(digits) => DecValue(digits) <= 0x7fff_ffff_ffff_ffff
    case Quoted(_) => true
    case Extension(_, _) => true
    case Entity(parts, _) => |parts| <= 16
    case Parens(e) => WithinExpr(e, depth, recDepth)
    case Elements(elts) => |elts| <= 256 && WithinElts(elts, depth, recDepth)
    case Fields(fields, _) =>
      recDepth < 16 && |fields| <= 64 && DistinctNames(fields) && WithinFields(fields, depth, recDepth + 1)
    case Access(obj, _) => MemberSteps(p) <= 16 && Within(obj, depth, recDepth)
    case Index(obj, _) => MemberSteps(p) <= 16 && Within(obj, depth, recDepth)
    case Invoke(obj, _, arg) =>
      MemberSteps(p) <= 16 && Within(obj, depth, recDepth) && (arg.Some? ==> WithinExpr(arg.value, depth, recDepth))
    case NegDigits(digits) => DecValue(digits) <= 0x8000_0000_0000_0000
    case Negation(e) => depth < 64 && Within(e, depth + 1, recDepth)
    case Complement(e) => depth < 64 && Within(e, depth + 1, recDepth)
    case Operation(op, left, right) =>
      && (OpLevel(op) != REL ==> Operators(OpLevel(op), p) <= 256)
      && Within(left, depth, recDepth) && Within(right, depth, recDepth)
    case Presence(obj, _) => Within(obj, depth, recDepth)
    case Matching(obj, _) => Within(obj, depth, recDepth)
    case Typing(obj, parts, target) =>
      |parts| <= 16 && Within(obj, depth, recDepth) && (target.Some? ==> Within(target.value, depth, recDepth))
    case Choice(cond, thn, els) =>
      WithinExpr(cond, depth, recDepth) && WithinExpr(thn, depth, recDepth) && WithinExpr(els, depth, recDepth)
  }

  predicate WithinElts(elts: seq<Phrase>, depth: nat, recDepth: nat)
    decreases elts, 0
  {
    elts == [] || (WithinExpr(elts[0], depth, recDepth) && WithinElts(elts[1..], depth, recDepth))
  }

  predicate WithinFields(fields: seq<Field>, depth: nat, recDepth: nat)
    decreases fields, 0
  {
    fields == [] || (WithinField(fields[0], depth, recDepth) && WithinFields(fields[1..], depth, recDepth))
  }

  predicate WithinField(f: Field, depth: nat, recDepth: nat)
    decreases f, 2
  {
    WithinExpr(f.value, depth, recDepth)
  }

  // ---- What a phrase looks like ----

  /** `A::B::C` */
  function PartsTokens(parts: seq<string>, k: Toks): Toks {
    if parts == [] then k
    else if |parts| == 1 then [Ident(parts[0])] + k
    else [Ident(parts[0])] + ([ColonColon] + PartsTokens(parts[1..], k))
  }

  /** The tokens of p, followed by k. */
  function Yield(p: Phrase, k: Toks): Toks
    decreases p, 0
  {
    match p
    case Truth(b) => [if b then KwTrue else KwFalse] + k
    case Variable(v) => [KwVar(v)] + k
    case Digits(digits) => [Number(digits)] + k
    case Quoted(t) => [t] + k
    case Extension(kind, t) => [KwExt(kind)] + ([LParen] + ([t] + ([RParen] + k)))
    case Entity(parts, t) => PartsTokens(parts, [ColonColon] + ([t] + k))
    case Parens(e) => [LParen] + Yield(e, [RParen] + k)
    case Elements(elts) =>
      if elts == [] then [LBracket] + ([RBracket] + k)
      else [LBracket] + Yield(elts[0], YieldElts(elts[1..], [RBracket] + k))
    case Fields(fields, comma) => [LBrace] + YieldFields(fields, (if comma then [Comma] else []) + ([RBrace] + k))
    case Access(obj, name) => Yield(obj, [Dot] + ([name] + k))
    case Index(obj, key) => Yield(obj, [LBracket] + ([key] + ([RBracket] + k)))
    case Invoke(obj, name, arg) => Yield(obj, [Dot] + ([name] + ([LParen] + YieldOption(arg, [RParen] + k))))
    case NegDigits(digits) => [Oper(Minus)] + ([Number(digits)] + k)
    case Negation(e) => [Oper(Minus)] + Yield(e, k)
    case Complement(e) => [Bang] + Yield(e, k)
    case Operation(op, left, right) => Yield(left, [Oper(op)] + Yield(right, k))
    case Presence(obj, name) => Yield(obj, [KwHas] + ([name] + k))
    case Matching(obj, t) => Yield(obj, [KwLike] + ([t] + k))
    case Typing(obj, parts, target) => Yield(obj, [KwIs] + PartsTokens(parts, YieldIn(target, k)))
    case Choice(cond, thn, els) => [KwIf] + Yield(cond, [KwThen] + Yield(thn, [KwElse] + Yield(els, k)))
  }

  function YieldOption(p: Option<Phrase>, k: Toks): Toks
    decreases p, 0
  {
    match p
    case None => k
    case Some(e) => Yield(e, k)
  }

  function YieldIn(p: Option<Phrase>, k: Toks): Toks
    decreases p, 0
  {
    match p
    case None => k
    case Some(e) => [Oper(In)] + Yield(e, k)
  }

  /** Elements that follow another one. */
  function YieldElts(elts: seq<Phrase>, k: Toks): Toks
    decreases elts, 0
  {
    if elts == [] then k else [Comma] + Yield(elts[0], YieldElts(elts[1..], k))
  }

  function YieldFields(fields: seq<Field>, k: Toks): Toks
    decreases fields, 0
  {
    if fields == [] then k
    else
      YieldField(fields[0], if |fields| == 1 then k else [Comma] + YieldFields(fields[1..], k))
  }

  function YieldField(f: Field, k: Toks): Toks
    decreases f, 1
  {
    [f.key] + ([Colon] + Yield(f.value, k))
  }

  // ---- What a phrase means ----

  function Joined(parts: seq<string>): string {
    if parts == [] then "" else if |parts| == 1 then parts[0] else parts[0] + "::" + Joined(parts[1..])
  }

  /** The expression that p is read as. */
  function NodeOf(p: Phrase): Node
    decreases p, 0
  {
    match p
    case Truth(b) => BoolLit(b)
    case Variable(v) => VarRef(v)
    case Digits(digits) => LongLit(DecValue(digits))
    case Quoted(t) => StrLit(NameOf(t))
    case Extension(kind, t) => ExtLit(kind, NameOf(t))
    case Entity(parts, t) => EntityRef(Joined(parts), NameOf(t))
    case Parens(e) => NodeOf(e)
    case Elements(elts) => SetLit(NodesOf(elts))
    case Fields(fields, _) => RecordLit(EntriesOf(fields))
    case Access(obj, name) => GetAttr(NodeOf(obj), NameOf(name))
    case Index(obj, key) => GetAttr(NodeOf(obj), NameOf(key))
    case Invoke(obj, name, arg) => Call(NodeOf(obj), NameOf(name), OptionOf(arg))
    case NegDigits(digits) => LongLit(-(DecValue(digits) as int))
    case Negation(e) => Neg(NodeOf(e))
    case Complement(e) => Not(NodeOf(e))
    case Operation(op, left, right) => Bin(op, NodeOf(left), NodeOf(right))
    case Presence(obj, name) => Has(NodeOf(obj), NameOf(name))
    case Matching(obj, t) => Like(NodeOf(obj), PatternOf(t))
    case Typing(obj, parts, target) => Is(NodeOf(obj), Joined(parts), OptionOf(target))
    case Choice(cond, thn, els) => If(NodeOf(cond), NodeOf(thn), NodeOf(els))
  }

  function OptionOf(p: Option<Phrase>): Option<Node>
    decreases p, 0
  {
    match p
    case None => None
    case Some(e) => Some(NodeOf(e))
  }

  function NodesOf(elts: seq<Phrase>): (ns: seq<Node>)
    ensures |ns| == |elts|
    decreases elts, 0
  {
    if elts == [] then [] else [NodeOf(elts[0])] + NodesOf(elts[1..])
  }

  function EntriesOf(fields: seq<Field>): (es: seq<Entry>)
    ensures |es| == |fields|
    decreases fields, 0
  {
    if fields == [] then [] else [EntryOf(fields[0])] + EntriesOf(fields[1..])
  }

  function EntryOf(f: Field): Entry
    decreases f, 1
  {
    Entry(NameOf(f.key), NodeOf(f.value))
  }

  // ---- First tokens ----

  /** What a phrase begins with. */
  lemma {:induction false} YieldHead(p: Phrase, k: Toks)
    requires Shape(p)
    ensures Yield(p, k) != [] && RoundTrip.Starts(Yield(p, k)[0], LevelOf(p))
    ensures UNARY <= LevelOf(p) ==> (Yield(p, k)[0].Number? <==> NumberFirst(p))
    decreases p
  {
    match p
    case Access(obj, name) => YieldHead(obj, [Dot] + ([name] + k));
    case Index(obj, key) => YieldHead(obj, [LBracket] + ([key] + ([RBracket] + k)));
    case Invoke(obj, name, arg) => YieldHead(obj, [Dot] + ([name] + ([LParen] + YieldOption(arg, [RParen] + k))));
    case Operation(op, left, right) => YieldHead(left, [Oper(op)] + Yield(right, k));
    case Presence(obj, name) => YieldHead(obj, [KwHas] + ([name] + k));
    case Matching(obj, t) => YieldHead(obj, [KwLike] + ([t] + k));
    case Typing(obj, parts, target) => YieldHead(obj, [KwIs] + PartsTokens(parts, YieldIn(target, k)));
    case _ =>
  }

  // ---- One constructor at a time ----

  lemma ChoiceFacts(p: Phrase, k: Toks, depth: nat, recDepth: nat)
    requires p.Choice?
    ensures Shape(p) <==> Shape(p.cond) && Shape(p.thn) && Shape(p.els)
    ensures LevelOf(p) == EXPR && NodeOf(p) == If(NodeOf(p.cond), NodeOf(p.thn), NodeOf(p.els))
    ensures Yield(p, k) == [KwIf] + Yield(p.cond, [KwThen] + Yield(p.thn, [KwElse] + Yield(p.els, k)))
    ensures Within(p, depth, recDepth) <==>
      WithinExpr(p.cond, depth, recDepth) && WithinExpr(p.thn, depth, recDepth) && WithinExpr(p.els, depth, recDepth)
  {
    hide WithinExpr;
  }

  lemma OperationFacts(p: Phrase, k: Toks, depth: nat, recDepth: nat)
    requires p.Operation?
    ensures Shape(p) <==>
      && LevelOf(p.left) >= (if OpLevel(p.op) == REL then ADD else OpLevel(p.op)) && LevelOf(p.right) > OpLevel(p.op)
      && Shape(p.left) && Shape(p.right)
    ensures LevelOf(p) == OpLevel(p.op) && NodeOf(p) == Bin(p.op, NodeOf(p.left), NodeOf(p.right))
    ensures Yield(p, k) == Yield(p.left, [Oper(p.op)] + Yield(p.right, k))
    ensures Operators(OpLevel(p.op), p) == 1 + Operators(OpLevel(p.op), p.left)
    ensures Within(p, depth, recDepth) <==>
      && (OpLevel(p.op) != REL ==> Operators(OpLevel(p.op), p) <= 256)
      && Within(p.left, depth, recDepth) && Within(p.right, depth, recDepth)
  {
  }

  lemma PresenceFacts(p: Phrase, k: Toks, depth: nat, recDepth: nat)
    requires p.Presence?
    ensures Shape(p) <==> (IsBare(p.name) || IsPlain(p.name)) && LevelOf(p.obj) >= ADD && Shape(p.obj)
    ensures LevelOf(p) == REL && NodeOf(p) == Has(NodeOf(p.obj), NameOf(p.name))
    ensures Yield(p, k) == Yield(p.obj, [KwHas] + ([p.name] + k))
    ensures Within(p, depth, recDepth) <==> Within(p.obj, depth, recDepth)
  {
  }

  lemma MatchingFacts(p: Phrase, k: Toks, depth: nat, recDepth: nat)
    requires p.Matching?
    ensures Shape(p) <==> p.t.Str? && Pattern.Compiled(p.t.raw).Some? && LevelOf(p.obj) >= ADD && Shape(p.obj)
    ensures LevelOf(p) == REL && NodeOf(p) == Like(NodeOf(p.obj), PatternOf(p.t))
    ensures Yield(p, k) == Yield(p.obj, [KwLike] + ([p.t] + k))
    ensures Within(p, depth, recDepth) <==> Within(p.obj, depth, recDepth)
  {
    hide Pattern.Compiled;
  }

  lemma TypingFacts(p: Phrase, k: Toks, depth: nat, recDepth: nat)
    requires p.Typing?
    ensures Shape(p) <==>
      && p.parts != [] && LevelOf(p.obj) >= ADD && Shape(p.obj)
      && (p.target.Some? ==> LevelOf(p.target.value) >= ADD && Shape(p.target.value))
    ensures LevelOf(p) == REL && NodeOf(p) == Is(NodeOf(p.obj), Joined(p.parts), OptionOf(p.target))
    ensures Yield(p, k) == Yield(p.obj, [KwIs] + PartsTokens(p.parts, YieldIn(p.target, k)))
    ensures Within(p, depth, recDepth) <==>
      |p.parts| <= 16 && Within(p.obj, depth, recDepth) && (p.target.Some? ==> Within(p.target.value, depth, recDepth))
  {
    hide PartsTokens, Joined;
  }

  lemma UnaryFacts(p: Phrase, k: Toks, depth: nat, recDepth: nat)
    requires p.Negation? || p.Complement?
    ensures Shape(p) <==> LevelOf(p.e) >= UNARY && (p.Negation? ==> !NumberFirst(p.e)) && Shape(p.e)
    ensures LevelOf(p) == UNARY && NodeOf(p) == if p.Negation? then Neg(NodeOf(p.e)) else Not(NodeOf(p.e))
    ensures Yield(p, k) == [if p.Negation? then Oper(Minus) else Bang] + Yield(p.e, k)
    ensures Within(p, depth, recDepth) <==> depth < 64 && Within(p.e, depth + 1, recDepth)
  {
  }

  lemma NegDigitsFacts(digits: DigitString, k: Toks, depth: nat, recDepth: nat)
    ensures var p := NegDigits(digits);
      && Shape(p) && LevelOf(p) == UNARY && NodeOf(p) == LongLit(-(DecValue(digits) as int))
      && Yield(p, k) == [Oper(Minus)] + ([Number(digits)] + k)
      && (Within(p, depth, recDepth) <==> DecValue(digits) <= 0x8000_0000_0000_0000)
  {
    hide DecValue;
  }

  /** The three kinds of member steps. */
  predicate IsStep(p: Phrase) {
    p.Access? || p.Index? || p.Invoke?
  }

  /** The tokens of a step behind its object. */
  function StepTokens(p: Phrase, k: Toks): Toks
    requires IsStep(p)
  {
    match p
    case Access(_, name) => [Dot] + ([name] + k)
    case Index(_, key) => [LBracket] + ([key] + ([RBracket] + k))
    case Invoke(_, name, arg) => [Dot] + ([name] + ([LParen] + YieldOption(arg, [RParen] + k)))
  }

  lemma StepFacts(p: Phrase, k: Toks, depth: nat, recDepth: nat)
    requires IsStep(p)
    ensures p.Access? || p.Index? || p.Invoke?
    ensures Shape(p) <==>
      && LevelOf(p.obj) == MEMBER && Shape(p.obj)
      && (p.Index? ==> IsPlain(p.key) && p.key.value != "") && (!p.Index? ==> IsBare(p.name))
      && (p.Invoke? && p.arg.Some? ==> Shape(p.arg.value))
    ensures LevelOf(p) == MEMBER && MemberSteps(p) == 1 + MemberSteps(p.obj)
    ensures NodeOf(p) == if p.Access? then GetAttr(NodeOf(p.obj), NameOf(p.name))
                         else if p.Index? then GetAttr(NodeOf(p.obj), NameOf(p.key))
                         else Call(NodeOf(p.obj), NameOf(p.name), OptionOf(p.arg))
    ensures Yield(p, k) == Yield(p.obj, StepTokens(p, k))
    ensures NumberFirst(p) <==> NumberFirst(p.obj)
    ensures Within(p, depth, recDepth) <==>
      && MemberSteps(p) <= 16 && Within(p.obj, depth, recDepth)
      && (p.Invoke? && p.arg.Some? ==> WithinExpr(p.arg.value, depth, recDepth))
  {
    hide WithinExpr;
  }

  lemma NoSteps(p: Phrase)
    requires LevelOf(p) == MEMBER && !IsStep(p)
    ensures MemberSteps(p) == 0
  {
  }

  lemma ParensFacts(p: Phrase, k: Toks, depth: nat, recDepth: nat)
    requires p.Parens?
    ensures Shape(p) <==> Shape(p.e)
    ensures LevelOf(p) == MEMBER && !IsStep(p) && NodeOf(p) == NodeOf(p.e)
    ensures Yield(p, k) == [LParen] + Yield(p.e, [RParen] + k)
    ensures Within(p, depth, recDepth) <==> WithinExpr(p.e, depth, recDepth)
  {
    hide WithinExpr;
  }

  lemma ElementsFacts(p: Phrase, k: Toks, depth: nat, recDepth: nat)
    requires p.Elements?
    ensures Shape(p) <==> forall i :: 0 <= i < |p.elts| ==> Shape(p.elts[i])
    ensures LevelOf(p) == MEMBER && !IsStep(p) && NodeOf(p) == SetLit(NodesOf(p.elts))
    ensures Yield(p, k) ==
      [LBracket] + (if p.elts == [] then [RBracket] + k else Yield(p.elts[0], YieldElts(p.elts[1..], [RBracket] + k)))
    ensures Within(p, depth, recDepth) <==> |p.elts| <= 256 && WithinElts(p.elts, depth, recDepth)
  {
    hide WithinElts, YieldElts, NodesOf;
  }

  lemma EltsFacts(elts: seq<Phrase>, k: Toks, depth: nat, recDepth: nat)
    ensures elts == [] ==> YieldElts(elts, k) == k && WithinElts(elts, depth, recDepth) && NodesOf(elts) == []
    ensures elts != [] ==>
      && YieldElts(elts, k) == [Comma] + Yield(elts[0], YieldElts(elts[1..], k))
      && NodesOf(elts) == [NodeOf(elts[0])] + NodesOf(elts[1..])
      && (WithinElts(elts, depth, recDepth) <==> WithinExpr(elts[0], depth, recDepth) && WithinElts(elts[1..], depth, recDepth))
  {
    hide WithinExpr, Yield, NodeOf;
  }

  predicate ShapeField(f: Field) {
    (IsBare(f.key) || IsPlain(f.key)) && Shape(f.value)
  }

  lemma FieldsFacts(p: Phrase, k: Toks, depth: nat, recDepth: nat)
    requires p.Fields?
    ensures Shape(p) <==> (p.comma ==> p.fields != []) && forall i :: 0 <= i < |p.fields| ==> ShapeField(p.fields[i])
    ensures LevelOf(p) == MEMBER && !IsStep(p) && NodeOf(p) == RecordLit(EntriesOf(p.fields))
    ensures Yield(p, k) == [LBrace] + YieldFields(p.fields, (if p.comma then [Comma] else []) + ([RBrace] + k))
    ensures Within(p, depth, recDepth) <==>
      recDepth < 16 && |p.fields| <= 64 && DistinctNames(p.fields) && WithinFields(p.fields, depth, recDepth + 1)
  {
    hide WithinFields, YieldFields, EntriesOf, DistinctNames, IsBare, IsPlain;
  }

  lemma EntriesFacts(fields: seq<Field>, k: Toks, depth: nat, recDepth: nat)
    ensures fields == [] ==> YieldFields(fields, k) == k && WithinFields(fields, depth, recDepth) && EntriesOf(fields) == []
    ensures fields != [] ==>
      && YieldFields(fields, k) ==
           [fields[0].key] + ([Colon] + Yield(fields[0].value, if |fields| == 1 then k else [Comma] + YieldFields(fields[1..], k)))
      && EntriesOf(fields) == [Entry(NameOf(fields[0].key), NodeOf(fields[0].value))] + EntriesOf(fields[1..])
      && (WithinFields(fields, depth, recDepth) <==>
            WithinExpr(fields[0].value, depth, recDepth) && WithinFields(fields[1..], depth, recDepth))
  {
    hide WithinExpr, Yield, NodeOf, NameOf;
  }

  /** The other phrases have no phrases inside. */
  predicate IsLeaf(p: Phrase) {
    p.Truth? || p.Variable? || p.Digits? || p.Quoted?
  }

  function LeafToken(p: Phrase): Token
    requires IsLeaf(p)
  {
    match p
    case Truth(b) => if b then KwTrue else KwFalse
    case Variable(v) => KwVar(v)
    case Digits(digits) => Number(digits)
    case Quoted(t) => t
  }

  lemma LeafFacts(p: Phrase, k: Toks, depth: nat, recDepth: nat)
    requires IsLeaf(p)
    ensures Shape(p) <==> (p.Quoted? ==> IsPlain(p.t))
    ensures LevelOf(p) == MEMBER && !IsStep(p) && Yield(p, k) == [LeafToken(p)] + k
    ensures Within(p, depth, recDepth) <==> (p.Digits? ==> DecValue(p.digits) <= 0x7fff_ffff_ffff_ffff)
    ensures p.Digits? ==> NodeOf(p) == LongLit(DecValue(p.digits))
    ensures p.Quoted? ==> NodeOf(p) == StrLit(NameOf(p.t))
    ensures p.Truth? ==> NodeOf(p) == BoolLit(p.b)
    ensures p.Variable? ==> NodeOf(p) == VarRef(p.v)
  {
    hide DecValue;
  }

  lemma ExtensionFacts(p: Phrase, k: Toks, depth: nat, recDepth: nat)
    requires p.Extension?
    ensures (Shape(p) <==> IsPlain(p.t)) && LevelOf(p) == MEMBER && !IsStep(p) && Within(p, depth, recDepth)
    ensures NodeOf(p) == ExtLit(p.kind, NameOf(p.t))
    ensures Yield(p, k) == [KwExt(p.kind)] + ([LParen] + ([p.t] + ([RParen] + k)))
  {
  }

  lemma EntityFacts(p: Phrase, k: Toks, depth: nat, recDepth: nat)
    requires p.Entity?
    ensures (Shape(p) <==> p.parts != [] && IsPlain(p.t)) && LevelOf(p) == MEMBER && !IsStep(p)
    ensures Within(p, depth, recDepth) <==> |p.parts| <= 16
    ensures NodeOf(p) == EntityRef(Joined(p.parts), NameOf(p.t))
    ensures Yield(p, k) == PartsTokens(p.parts, [ColonColon] + ([p.t] + k))
  {
    hide PartsTokens, Joined;
  }

  lemma PartsFacts(parts: seq<string>, k: Toks)
    requires parts != []
    ensures |parts| == 1 ==> PartsTokens(parts, k) == [Ident(parts[0])] + k && Joined(parts) == parts[0]
    ensures |parts| > 1 ==> PartsTokens(parts, k) == [Ident(parts[0])] + ([ColonColon] + PartsTokens(parts[1..], k))
    ensures |parts| > 1 ==> Joined(parts) == parts[0] + "::" + Joined(parts[1..])
  {
  }

  /** Every phrase is of one of these kinds. */
  lemma Kinds(p: Phrase)
    ensures LevelOf(p) == EXPR <==> p.Choice?
    ensures LevelOf(p) == REL <==> (p.Operation? && OpLevel(p.op) == REL) || p.Presence? || p.Matching? || p.Typing?
    ensures LevelOf(p) == UNARY <==> p.NegDigits? || p.Negation? || p.Complement?
    ensures LevelOf(p) == MEMBER <==>
      IsStep(p) || IsLeaf(p) || p.Extension? || p.Entity? || p.Parens? || p.Elements? || p.Fields?
    ensures EXPR == 0 && OR == 1 && AND == 2 && REL == 3 && ADD == 4 && MUL == 5 && UNARY == 6 && MEMBER == 7
    ensures forall l :: Operators(l, p) > 0 ==> p.Operation? && OpLevel(p.op) == l
    ensures LevelOf(p) == OR || LevelOf(p) == AND || LevelOf(p) == ADD || LevelOf(p) == MUL ==> p.Operation?
  {
  }

  lemma ExprFacts(p: Phrase, depth: nat, recDepth: nat)
    ensures WithinExpr(p, depth, recDepth) <==> depth < 64 && Within(p, depth + 1, recDepth)
  {
    hide Within;
  }
}
