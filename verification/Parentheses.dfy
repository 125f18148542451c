/**
 * Redundant parentheses: texts that keep the parser's limits only because of parentheses that printing
 * leaves out. They are accepted, and the printed text of what they parse to is rejected. There is one
 * lemma for each limit that can be kept in this way: member steps, operators of a chain, and depth.
 */
module Parentheses {
  import opened Common
  import opened Digits
  import opened Syntax
  import opened Grammar
  import opened PolicyGrammar
  import opened PolicyImage
  import opened PolicyRoundTrip
  import opened Printer
  import opened RoundTrip
  import Bounded
  import Rendering
  import Results
  import Scanner

  /** `permit (principal, action, resource) when { n };` */
  function When(n: Node): Policy {
    Policy(false, [], AnyEntity, AnyEntity, AnyEntity, [Condition(false, n)])
  }

  /** What follows its condition. */
  function End(): (k: Toks)
    ensures k == [RBrace, Semicolon] && Rendering.AllRenderable(k)
  {
    [RBrace] + [Semicolon]
  }

  /** The tokens of such a policy, given those from its condition on. */
  function WhenTokens(ts: Toks): Toks {
    [KwPermit] + PrintScopes(When(BoolLit(true)), [KwWhen] + ([LBrace] + ts))
  }

  /** The text of these tokens. */
  function TextOf(ts: Toks): string {
    Rendering.Render(WhenTokens(ts))
  }

  predicate Readable(ts: Toks) {
    Rendering.AllRenderable(ts) && !Head(ts).ErrorToken?
  }

  lemma ReadCondition(n: Node, ts: Toks)
    requires ParseExpr(ts, 0, 0) == Some((n, End())) && !Head(ts).ErrorToken?
    ensures ParseConditions([], [KwWhen] + ([LBrace] + ts)) == Some(([Condition(false, n)], [Semicolon]))
  {
    hide ParseExpr;
    TakeOne(LBrace, ts);
    TakeOne(KwWhen, [LBrace] + ts);
    TakeOne(RBrace, [Semicolon]);
    var all := [KwWhen] + ([LBrace] + ts);
    assert ParseCondition(all) == Some((Condition(false, n), [Semicolon]));
    assert [] + [Condition(false, n)] == [Condition(false, n)];
    assert ParseConditions([Condition(false, n)], [Semicolon]) == Some(([Condition(false, n)], [Semicolon]));
  }

  lemma ReadWhen(n: Node, ts: Toks)
    requires ParseExpr(ts, 0, 0) == Some((n, End())) && !Head(ts).ErrorToken?
    ensures ParsePolicySet(WhenTokens(ts)) == Some([When(n)])
  {
    hide *;
    ReadBody(n, ts);
    OnePolicy(When(n), WhenTokens(ts));
  }

  lemma OnePolicy(p: Policy, ts: Toks)
    requires ts != [] && IsEffect(Head(ts)) && ParsePolicy([], ts) == Some((p, []))
    ensures ParsePolicySet(ts) == Some([p])
  {
    hide ParsePolicy;
    assert ParseAnnotated(ts) == Some((p, []));
    hide ParseAnnotated, ParseAnnotations;
    assert [] + [p] == [p] && ParsePolicies([p], []) == Some([p]);
  }

  lemma ReadBody(n: Node, ts: Toks)
    requires ParseExpr(ts, 0, 0) == Some((n, End())) && !Head(ts).ErrorToken?
    ensures WhenTokens(ts) != [] && IsEffect(Head(WhenTokens(ts)))
    ensures ParsePolicy([], WhenTokens(ts)) == Some((When(n), []))
  {
    hide ParseExpr, ParseConditions, ParseScopes, PrintScopes, Advance, Expect;
    var k := [KwWhen] + ([LBrace] + ts);
    ReadCondition(n, ts);
    ScopesTrip(When(BoolLit(true)), k);
    ScopesHead(When(BoolLit(true)), k);
    TakeOne(KwPermit, PrintScopes(When(BoolLit(true)), k));
    TakeOne(Semicolon, []);
    assert [Semicolon] + [] == [Semicolon];
  }

  lemma WhenRenderable(ts: Toks)
    requires Rendering.AllRenderable(ts)
    ensures Rendering.AllRenderable(WhenTokens(ts))
  {
    ScopesRenderable(When(BoolLit(true)), [KwWhen] + ([LBrace] + ts));
  }

  /** The text is accepted; the printed text is accepted exactly if the condition keeps the limits when printed. */
  lemma AcceptedAndPrinted(n: Node, ts: Toks)
    requires WellFormed(n) && Readable(ts) && ParseExpr(ts, 0, 0) == Some((n, End()))
    ensures ParsePolicySet(Scanner.Lex(TextOf(ts))) == Some([When(n)])
    ensures ParsePolicySet(Scanner.Lex(PolicyText([When(n)]))) == if Fits(n, EXPR, 0, 0) then Some([When(n)]) else None
  {
    OneCondition(n);
    hide ParsePolicySet, ParseExpr, WhenTokens, PolicyText, WellFormed, Fits, PoliciesFit, IsPolicy, Rendering.Render, Scanner.Lex,
      Rendering.AllRenderable, End;
    ReadWhen(n, ts);
    WhenRenderable(ts);
    Rendering.LexRendered(WhenTokens(ts));
    PolicyTextRoundTrip([When(n)]);
  }

  lemma OneCondition(n: Node)
    requires WellFormed(n)
    ensures IsPolicy(When(n)) && (PoliciesFit([When(n)]) <==> Fits(n, EXPR, 0, 0))
  {
    hide WellFormed, Fits;
    var p := When(n);
    assert ConditionsFit(p.conditions) <==> ConditionFits(p.conditions[0]);
    assert PoliciesFit([p]) <==> PolicyFits([p][0]);
  }

  /** An expression that one of the levels below reads up to the end is read at the loosest level. */
  lemma ReadLoosely(n: Node, l: nat, ts: Toks)
    requires OR <= l <= MEMBER && ParseAt(l, ts, 1, 0) == Some((n, End()))
    requires Head(ts) != KwIf && (l == MEMBER ==> Head(ts) != Bang && Head(ts) != Oper(Minus))
    ensures ParseExpr(ts, 0, 0) == Some((n, End()))
  {
    hide ParseAt, ParseExpr;
    assert Stops(Head(End()), OR);
    LiftTo(OR, l, ts, 1, 0);
    ExprIsChain(ts, 0, 0);
  }

  // ---- Member steps ----

  /** `(n).attr`, whatever n is. */
  function ParenthesizedObject(n: Node, attr: string): Toks {
    [LParen] + Raw(n, [RParen] + AttrTokens(attr, End()))
  }

  /**
   * If n is a chain of 16 member steps, the text `(n).attr` is accepted and its printed form, which has
   * no parentheses and so a chain of 17, is not.
   */
  lemma HiddenSteps(n: Node, attr: string)
    requires WellFormed(n) && attr != "" && Fits(n, EXPR, 1, 0)
    ensures ParsePolicySet(Scanner.Lex(TextOf(ParenthesizedObject(n, attr)))) == Some([When(GetAttr(n, attr))])
    ensures Steps(n) >= MAX_MEMBER_CHAIN ==> ParsePolicySet(Scanner.Lex(PolicyText([When(GetAttr(n, attr))]))) == None
  {
    hide ParsePolicySet, PolicyText, TextOf, Raw, ParseAt, ParseExpr, Scanner.Lex, Rendering.AllRenderable, Fits;
    var ts := ParenthesizedObject(n, attr);
    ReadObject(n, attr);
    ReadLoosely(GetAttr(n, attr), MEMBER, ts);
    ObjectRenderable(n, attr);
    AcceptedAndPrinted(GetAttr(n, attr), ts);
    if Steps(n) >= MAX_MEMBER_CHAIN {
      TooManySteps(n, attr);
    }
  }

  lemma ReadObject(n: Node, attr: string)
    requires WellFormed(n) && attr != "" && Fits(n, EXPR, 1, 0)
    ensures ParseAt(MEMBER, ParenthesizedObject(n, attr), 1, 0) == Some((GetAttr(n, attr), End()))
    ensures Head(ParenthesizedObject(n, attr)) == LParen
  {
    var k := AttrTokens(attr, End());
    AttrFacts(n, attr, End(), 1, 0);
    EndStops();
    assert !Head(k).ErrorToken? && 0 + 1 <= MAX_MEMBER_CHAIN;
    assert Head(ParenthesizedObject(n, attr)) == LParen;
    assert ParenthesizedObject(n, attr) == [LParen] + Raw(n, [RParen] + k);
    hide *;
    ParenTrip(n, k, 1, 0);
    ReadAttr(n, attr, End(), 1, 0);
    NextStep(n, k, 0, 1, 0);
    MemberStops(GetAttr(n, attr), End(), 1, 1, 0);
    PrimaryMember([LParen] + Raw(n, [RParen] + k), 1, 0);
    AtMember([LParen] + Raw(n, [RParen] + k), 1, 0);
  }

  lemma EndStops()
    ensures Stops(Head(End()), OR) && Stops(Head(End()), MEMBER) && !Head(End()).ErrorToken? && Head(End()) != LParen
  {
  }

  lemma ObjectRenderable(n: Node, attr: string)
    requires WellFormed(n) && attr != ""
    ensures Readable(ParenthesizedObject(n, attr)) && WellFormed(GetAttr(n, attr))
  {
    hide Raw, Rendering.AllRenderable, AttrTokens;
    Rendering.AttrRenderable(attr, End());
    Rendering.OneMore(RParen, AttrTokens(attr, End()));
    Rendering.RawRenderable(n, [RParen] + AttrTokens(attr, End()));
    Rendering.OneMore(LParen, Raw(n, [RParen] + AttrTokens(attr, End())));
  }

  lemma TooManySteps(n: Node, attr: string)
    requires Steps(n) >= MAX_MEMBER_CHAIN
    ensures !Fits(GetAttr(n, attr), EXPR, 0, 0)
  {
  }

  /** `context.a.a..`, k steps. */
  function Path(k: nat): Node {
    if k == 0 then VarRef(Context) else GetAttr(Path(k - 1), "a")
  }

  lemma {:induction false} PathFits(k: nat)
    requires k <= MAX_MEMBER_CHAIN
    ensures WellFormed(Path(k)) && Steps(Path(k)) == k && NodeLevel(Path(k)) == MEMBER && FitsRaw(Path(k), 2, 0)
    decreases k
  {
    if k > 0 {
      PathFits(k - 1);
      assert Path(k) == GetAttr(Path(k - 1), "a");
      hide Path;
      OneStep(Path(k - 1));
    }
  }

  lemma OneStep(n: Node)
    requires WellFormed(n) && NodeLevel(n) == MEMBER && FitsRaw(n, 2, 0) && Steps(n) < MAX_MEMBER_CHAIN
    ensures var n' := GetAttr(n, "a");
      WellFormed(n') && Steps(n') == Steps(n) + 1 && NodeLevel(n') == MEMBER && FitsRaw(n', 2, 0)
  {
    AttrFacts(n, "a", [], 2, 0);
    hide Raw, Print, AttrTokens, Steps;
  }

  /** Such chains exist. */
  lemma StepsAreReached()
    ensures var n := Path(MAX_MEMBER_CHAIN);
      && ParsePolicySet(Scanner.Lex(TextOf(ParenthesizedObject(n, "a")))) == Some([When(GetAttr(n, "a"))])
      && ParsePolicySet(Scanner.Lex(PolicyText([When(GetAttr(n, "a"))]))) == None
  {
    var n := Path(MAX_MEMBER_CHAIN);
    PathFits(MAX_MEMBER_CHAIN);
    assert Fits(n, EXPR, 1, 0);
    hide *;
    HiddenSteps(n, "a");
  }

  // ---- Operators of a chain ----

  /** `(n) op r`, whatever n is. */
  function ParenthesizedOperand(n: Node, op: Op, r: Node): Toks {
    [LParen] + Raw(n, [RParen] + ([Oper(op)] + Print(r, OpLevel(op) + 1, End())))
  }

  /**
   * If n is a chain of 256 operators, the text `(n) op r` with another such operator is accepted and its
   * printed form, a chain of 257, is not.
   */
  lemma HiddenOperators(n: Node, op: Op, r: Node)
    requires WellFormed(n) && WellFormed(r) && OpLevel(op) != REL
    requires Fits(n, EXPR, 1, 0) && Fits(r, OpLevel(op) + 1, 1, 0)
    ensures ParsePolicySet(Scanner.Lex(TextOf(ParenthesizedOperand(n, op, r)))) == Some([When(Bin(op, n, r))])
    ensures Spine(OpLevel(op), n) >= MAX_BINOP_CHAIN ==>
      ParsePolicySet(Scanner.Lex(PolicyText([When(Bin(op, n, r))]))) == None
  {
    hide ParsePolicySet, PolicyText, TextOf, Raw, Print, ParseAt, ParseExpr, Scanner.Lex, Rendering.AllRenderable, Fits;
    var ts := ParenthesizedOperand(n, op, r);
    ReadOperand(n, op, r);
    ReadLoosely(Bin(op, n, r), OpLevel(op), ts);
    OperandRenderable(n, op, r);
    AcceptedAndPrinted(Bin(op, n, r), ts);
    if Spine(OpLevel(op), n) >= MAX_BINOP_CHAIN {
      TooManyOperators(n, op, r);
    }
  }

  lemma ReadOperand(n: Node, op: Op, r: Node)
    requires WellFormed(n) && WellFormed(r) && OpLevel(op) != REL
    requires Fits(n, EXPR, 1, 0) && Fits(r, OpLevel(op) + 1, 1, 0)
    ensures ParseAt(OpLevel(op), ParenthesizedOperand(n, op, r), 1, 0) == Some((Bin(op, n, r), End()))
    ensures Head(ParenthesizedOperand(n, op, r)) == LParen
  {
    hide Raw, Print, Fits, WellFormed, ParseAt, ParseMember, ParseChain, ParseOperand, ChainRest, Starts;
    var l, right := OpLevel(op), Print(r, OpLevel(op) + 1, End());
    var ts := ParenthesizedOperand(n, op, r);
    ParenMember(n, [Oper(op)] + right, 1, 0);
    AtMember(ts, 1, 0);
    LiftTo(l + 1, MEMBER, ts, 1, 0);
    AtChain(l, ts, 1, 0);
    ChainBegins(l, ts, 1, 0);
    OperandIsTighter(l, right, 1, 0);
    RoundTrip.RoundTrip(r, l + 1, End(), 1, 0);
    RightHead(r, l + 1);
    ChainStep(ChainLevel(l), n, op, right, 0, 1, 0);
    ChainEnds(ChainLevel(l), Bin(op, n, r), 1);
  }

  lemma RightHead(r: Node, l: nat)
    requires l <= MEMBER
    ensures Print(r, l, End()) != [] && !Head(Print(r, l, End())).ErrorToken?
  {
    hide Print;
    PrintHead(r, l, End());
  }

  lemma ChainEnds(l: Level, n: Node, count: nat)
    ensures ChainRest(l, n, End(), count, 1, 0) == Some((n, End()))
  {
  }

  lemma OperandRenderable(n: Node, op: Op, r: Node)
    requires WellFormed(n) && WellFormed(r)
    ensures Readable(ParenthesizedOperand(n, op, r)) && WellFormed(Bin(op, n, r))
  {
    hide Raw, Print, Rendering.AllRenderable;
    var right := Print(r, OpLevel(op) + 1, End());
    Rendering.PrintRenderable(r, OpLevel(op) + 1, End());
    Rendering.OneMore(Oper(op), right);
    Rendering.OneMore(RParen, [Oper(op)] + right);
    Rendering.RawRenderable(n, [RParen] + ([Oper(op)] + right));
    Rendering.OneMore(LParen, Raw(n, [RParen] + ([Oper(op)] + right)));
  }

  lemma TooManyOperators(n: Node, op: Op, r: Node)
    requires OpLevel(op) != REL && Spine(OpLevel(op), n) >= MAX_BINOP_CHAIN
    ensures !Fits(Bin(op, n, r), EXPR, 0, 0)
  {
  }

  /** Such chains exist. */
  lemma OperatorsAreReached()
    ensures var n, r := Bounded.Conjunction(MAX_BINOP_CHAIN), BoolLit(true);
      && ParsePolicySet(Scanner.Lex(TextOf(ParenthesizedOperand(n, And, r)))) == Some([When(Bin(And, n, r))])
      && ParsePolicySet(Scanner.Lex(PolicyText([When(Bin(And, n, r))]))) == None
  {
    var n, r := Bounded.Conjunction(MAX_BINOP_CHAIN), BoolLit(true);
    Bounded.ConjunctionFits(MAX_BINOP_CHAIN, 2);
    assert OpLevel(And) == AND && Fits(n, EXPR, 1, 0) && Fits(r, REL, 1, 0) && WellFormed(r) && AND + 1 == REL;
    hide *;
    HiddenOperators(n, And, r);
  }

  // ---- Depth ----

  /** `-(i).callee(arg)`: the parentheses keep the minus sign from being folded into the number. */
  function ParenthesizedNumber(i: nat, callee: string, arg: Node): Toks {
    [Oper(Minus)] + ([LParen] + ([Number(ShowNat(i))] + ([RParen] + CallTokens(callee, Print(arg, EXPR, [RParen] + End())))))
  }

  function NegatedCall(i: nat, callee: string, arg: Node): Node {
    Neg(Call(LongLit(i), callee, Some(arg)))
  }

  /**
   * Printing puts the parentheses around the whole call, `-(i.callee(arg))`, which takes the argument one
   * level deeper. If it does not fit there, the text above is accepted and the printed form is not.
   */
  lemma HiddenDepth(i: nat, callee: string, arg: Node)
    requires i <= INT64_MAX && IsPlainName(callee) && WellFormed(arg) && Fits(arg, EXPR, 2, 0)
    ensures ParsePolicySet(Scanner.Lex(TextOf(ParenthesizedNumber(i, callee, arg)))) == Some([When(NegatedCall(i, callee, arg))])
    ensures !Fits(arg, EXPR, 3, 0) ==> ParsePolicySet(Scanner.Lex(PolicyText([When(NegatedCall(i, callee, arg))]))) == None
  {
    hide ParsePolicySet, PolicyText, TextOf, Raw, Print, ParseAt, ParseExpr, Scanner.Lex, Rendering.AllRenderable, Fits,
      IsPlainName, CallTokens, ShowNat;
    var n, ts := NegatedCall(i, callee, arg), ParenthesizedNumber(i, callee, arg);
    ReadNegated(i, callee, arg);
    ReadLoosely(n, UNARY, ts);
    NegatedRenderable(i, callee, arg);
    AcceptedAndPrinted(n, ts);
    if !Fits(arg, EXPR, 3, 0) {
      TooDeep(i, callee, arg);
    }
  }

  lemma ReadNegated(i: nat, callee: string, arg: Node)
    requires i <= INT64_MAX && IsPlainName(callee) && WellFormed(arg) && Fits(arg, EXPR, 2, 0)
    ensures ParseAt(UNARY, ParenthesizedNumber(i, callee, arg), 1, 0) == Some((NegatedCall(i, callee, arg), End()))
    ensures Head(ParenthesizedNumber(i, callee, arg)) == Oper(Minus)
  {
    var ts := [LParen] + ([Number(ShowNat(i))] + ([RParen] + CallTokens(callee, Print(arg, EXPR, [RParen] + End()))));
    assert ParenthesizedNumber(i, callee, arg) == [Oper(Minus)] + ts && OperandHead(ts) && Head(ts) == LParen;
    assert Head([Oper(Minus)] + ts) == Oper(Minus) && 1 + 1 <= MAX_PARSE_DEPTH;
    hide *;
    ReadNumberCall(i, callee, arg);
    ParenUnary(ts, 2, 0);
    MinusBefore(ts, 1, 0);
    AtUnary([Oper(Minus)] + ts, 1, 0);
    NegatedIs(i, callee, arg);
  }

  lemma NegatedIs(i: nat, callee: string, arg: Node)
    ensures NegatedCall(i, callee, arg) == Neg(Call(LongLit(i), callee, Some(arg)))
  {
  }

  lemma ReadNumberCall(i: nat, callee: string, arg: Node)
    requires i <= INT64_MAX && IsPlainName(callee) && WellFormed(arg) && Fits(arg, EXPR, 2, 0)
    ensures var k := CallTokens(callee, Print(arg, EXPR, [RParen] + End()));
      ParseMember([LParen] + ([Number(ShowNat(i))] + ([RParen] + k)), 2, 0) == Some((Call(LongLit(i), callee, Some(arg)), End()))
  {
    var five := LongLit(i);
    var k := CallTokens(callee, Print(arg, EXPR, [RParen] + End()));
    assert k == CallTokens(callee, PrintArg(Some(arg), [RParen] + End()));
    CallFacts(five, callee, Some(arg), End(), 2, 0);
    assert Raw(five, [RParen] + k) == [Number(ShowNat(i))] + ([RParen] + k);
    assert WellFormed(five) && Fits(five, EXPR, 2, 0) && !Head(k).ErrorToken?;
    hide Raw, Print, Fits, WellFormed, ParsePrimary, ParseStep, CallTokens, IsPlainName, ShowNat;
    ParenTrip(five, k, 2, 0);
    CallTrip(five, callee, Some(arg), End(), 2, 0);
    NextStep(five, k, 0, 2, 0);
    var n := Call(five, callee, Some(arg));
    assert MemberRest(n, End(), 1, 2, 0) == Some((n, End()));
  }

  lemma NegatedRenderable(i: nat, callee: string, arg: Node)
    requires i <= INT64_MAX && IsPlainName(callee) && WellFormed(arg)
    ensures Readable(ParenthesizedNumber(i, callee, arg)) && WellFormed(NegatedCall(i, callee, arg))
  {
    assert WellFormed(Call(LongLit(i), callee, Some(arg)));
    hide Print, Rendering.AllRenderable, IsPlainName;
    var k := Print(arg, EXPR, [RParen] + End());
    Rendering.OneMore(RParen, End());
    Rendering.PrintRenderable(arg, EXPR, [RParen] + End());
    Rendering.CalleeRenderable(callee, k);
    Rendering.OneMore(RParen, CallTokens(callee, k));
    Rendering.OneMore(Number(ShowNat(i)), [RParen] + CallTokens(callee, k));
    Rendering.OneMore(LParen, [Number(ShowNat(i))] + ([RParen] + CallTokens(callee, k)));
    Rendering.OneMore(Oper(Minus), [LParen] + ([Number(ShowNat(i))] + ([RParen] + CallTokens(callee, k))));
  }

  lemma TooDeep(i: nat, callee: string, arg: Node)
    requires !Fits(arg, EXPR, 3, 0)
    ensures !Fits(NegatedCall(i, callee, arg), EXPR, 0, 0)
  {
    var call := Call(LongLit(i), callee, Some(arg));
    assert !FitsRaw(call, 3, 0);
    assert !Fits(call, MEMBER + 1, 2, 0);
    assert StartsWithNumber(call) && !FitsRaw(Neg(call), 1, 0);
  }

  /** Such arguments exist: `true` in 61 brackets. */
  lemma DepthIsReached(i: nat, callee: string)
    requires i <= INT64_MAX && IsPlainName(callee)
    ensures var n := NegatedCall(i, callee, Results.Nested(61));
      && ParsePolicySet(Scanner.Lex(TextOf(ParenthesizedNumber(i, callee, Results.Nested(61))))) == Some([When(n)])
      && ParsePolicySet(Scanner.Lex(PolicyText([When(n)]))) == None
  {
    Results.NestedFits(61, 3);
    Results.NestedFits(61, 4);
    hide *;
    HiddenDepth(i, callee, Results.Nested(61));
  }
}
