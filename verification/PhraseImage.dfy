/**
 * Whatever the parser reads is a phrase of the grammar that keeps the limits, and stands for the expression
 * that was read. With PhraseReading: the parser accepts exactly the grammar.
 */
module PhraseImage {
  import opened Common
  import opened Digits
  import opened Syntax
  import opened Grammar
  import opened Printer
  import opened Phrases
  import PhraseReading
  import Pattern
  import RoundTrip

  /** The tokens ts are p up to k; p has level l or a tighter one, keeps the limits and is read as n. */
  predicate Spells(p: Phrase, l: nat, n: Node, ts: Toks, k: Toks, depth: nat, recDepth: nat) {
    Shape(p) && LevelOf(p) >= l && NodeOf(p) == n && Yield(p, k) == ts && Within(p, depth, recDepth)
  }

  predicate SpellsExpr(p: Phrase, n: Node, ts: Toks, k: Toks, depth: nat, recDepth: nat) {
    Shape(p) && NodeOf(p) == n && Yield(p, k) == ts && WithinExpr(p, depth, recDepth)
  }

  function LevelNumber(l: Level): (r: nat)
    ensures (r == OR || r == AND || r == ADD || r == MUL) && r < MEMBER
  {
    match l
    case OrLevel => OR
    case AndLevel => AND
    case AddLevel => ADD
    case MulLevel => MUL
  }

  lemma Taken(ts: Toks)
    requires ts != []
    ensures Advance(ts).Some? ==> ts == [Head(ts)] + Advance(ts).value && Head(ts) == ts[0]
  {
  }

  lemma TakenToken(ts: Toks, t: Token)
    ensures Expect(ts, t).Some? ==> ts == [t] + Expect(ts, t).value
  {
  }

  // ---- Names of types ----

  lemma {:induction false} MoreParts(name: string, done: nat, ts: Toks) returns (parts: seq<string>)
    requires TypeNameRest(name, done, ts).Some? && 1 <= done <= 16
    ensures var (ty, k) := TypeNameRest(name, done, ts).value;
      && done + |parts| <= 16
      && (parts == [] ==> ty == name && k == ts)
      && (parts != [] ==> ty == name + "::" + Joined(parts) && ts == [ColonColon] + PartsTokens(parts, k))
    decreases |ts|
  {
    hide Advance, PartsTokens, Joined;
    parts := [];
    if Head(ts) == ColonColon {
      Taken(ts);
      var t1 := Advance(ts).value;
      Taken(t1);
      var t2, next := Advance(t1).value, t1[0].name;
      var tail := MoreParts(name + "::" + next, done + 1, t2);
      parts := [next] + tail;
      assert parts[1..] == tail;
      PartsFacts(parts, TypeNameRest(name, done, ts).value.1);
      if tail != [] {
        assert name + "::" + next + "::" + Joined(tail) == name + "::" + (next + "::" + Joined(tail));
      }
    }
  }

  lemma TypeParts(ts: Toks) returns (parts: seq<string>)
    requires ParseTypeName(ts).Some?
    ensures var (ty, k) := ParseTypeName(ts).value;
      parts != [] && |parts| <= 16 && ty == Joined(parts) && ts == PartsTokens(parts, k)
  {
    hide Advance, PartsTokens, Joined, TypeNameRest;
    Taken(ts);
    var tail := MoreParts(ts[0].name, 1, Advance(ts).value);
    parts := [ts[0].name] + tail;
    assert parts[1..] == tail;
    PartsFacts(parts, ParseTypeName(ts).value.1);
  }

  lemma {:induction false} MoreSegments(name: string, done: nat, ts: Toks) returns (parts: seq<string>, t: Token)
    requires ParseEntityRef(name, done, ts).Some? && 1 <= done <= 16
    ensures var (n, k) := ParseEntityRef(name, done, ts).value; var K := [ColonColon] + ([t] + k);
      && done + |parts| <= 16 && IsPlain(t)
      && (parts == [] ==> n == EntityRef(name, NameOf(t)) && ts == K)
      && (parts != [] ==> n == EntityRef(name + "::" + Joined(parts), NameOf(t)) && ts == [ColonColon] + PartsTokens(parts, K))
    decreases |ts|
  {
    hide Advance, PartsTokens, Joined;
    Taken(ts);
    var t1 := Advance(ts).value;
    Taken(t1);
    var t2 := Advance(t1).value;
    if t1[0].Str? {
      parts, t := [], t1[0];
    } else {
      var next := t1[0].name;
      var tail;
      tail, t := MoreSegments(name + "::" + next, done + 1, t2);
      parts := [next] + tail;
      assert parts[1..] == tail;
      PartsFacts(parts, [ColonColon] + ([t] + ParseEntityRef(name, done, ts).value.1));
      if tail != [] {
        assert name + "::" + next + "::" + Joined(tail) == name + "::" + (next + "::" + Joined(tail));
      }
    }
  }

  lemma EntityPhrase(ts: Toks, depth: nat, recDepth: nat) returns (p: Phrase)
    requires ts != [] && ts[0].Ident? && Advance(ts).Some? && ParseEntityRef(ts[0].name, 1, Advance(ts).value).Some?
    ensures var (n, k) := ParseEntityRef(ts[0].name, 1, Advance(ts).value).value;
      Spells(p, MEMBER, n, ts, k, depth, recDepth) && p.Entity?
  {
    hide Advance, PartsTokens, Joined, ParseEntityRef, Shape, Within, Yield, NodeOf, LevelOf;
    Taken(ts);
    var tail, t := MoreSegments(ts[0].name, 1, Advance(ts).value);
    var parts := [ts[0].name] + tail;
    assert parts[1..] == tail;
    var k := ParseEntityRef(ts[0].name, 1, Advance(ts).value).value.1;
    p := Entity(parts, t);
    PartsFacts(parts, [ColonColon] + ([t] + k));
    EntityFacts(p, k, depth, recDepth);
  }

  // ---- Expressions ----

  lemma {:induction false} ExprPhrase(ts: Toks, depth: nat, recDepth: nat) returns (p: Phrase)
    requires ParseExpr(ts, depth, recDepth).Some?
    ensures var (n, k) := ParseExpr(ts, depth, recDepth).value; SpellsExpr(p, n, ts, k, depth, recDepth)
    decreases |ts|, 13
  {
    hide Shape, Within, WithinExpr, Yield, NodeOf, LevelOf, ParseIf, ParseChain;
    if Head(ts) == KwIf {
      p := IfPhrase(ts, depth + 1, recDepth);
    } else {
      p := ChainPhrase(OrLevel, ts, depth + 1, recDepth);
    }
    ExprFacts(p, depth, recDepth);
  }

  lemma {:induction false} IfPhrase(ts: Toks, depth: nat, recDepth: nat) returns (p: Phrase)
    requires ts != [] && Head(ts) == KwIf && ParseIf(ts, depth, recDepth).Some?
    ensures var (n, k) := ParseIf(ts, depth, recDepth).value; Spells(p, EXPR, n, ts, k, depth, recDepth)
    decreases |ts|, 0
  {
    hide Shape, Within, WithinExpr, Yield, NodeOf, LevelOf, Advance, Expect, ParseExpr;
    Taken(ts);
    var t1 := Advance(ts).value;
    var c := ExprPhrase(t1, depth, recDepth);
    var (cn, t2) := ParseExpr(t1, depth, recDepth).value;
    assert IfBranches(cn, t2, depth, recDepth).Some?;
    TakenToken(t2, KwThen);
    var t3 := Expect(t2, KwThen).value;
    var a := ExprPhrase(t3, depth, recDepth);
    var (an, t4) := ParseExpr(t3, depth, recDepth).value;
    assert ElseBranch(cn, an, t4, depth, recDepth).Some?;
    TakenToken(t4, KwElse);
    var t5 := Expect(t4, KwElse).value;
    var b := ExprPhrase(t5, depth, recDepth);
    p := Choice(c, a, b);
    ChoiceFacts(p, ParseExpr(t5, depth, recDepth).value.1, depth, recDepth);
  }

  lemma {:induction false} ChainPhrase(l: Level, ts: Toks, depth: nat, recDepth: nat) returns (p: Phrase)
    requires ParseChain(l, ts, depth, recDepth).Some?
    ensures var (n, k) := ParseChain(l, ts, depth, recDepth).value; Spells(p, LevelNumber(l), n, ts, k, depth, recDepth)
    decreases |ts|, Rank(l) + 1
  {
    hide Shape, Within, Yield, NodeOf, LevelOf, ParseOperand, ChainRest, Operators, LevelNumber;
    var q := OperandPhrase(l, ts, depth, recDepth);
    var (left, t1) := ParseOperand(l, ts, depth, recDepth).value;
    PhraseReading.NotInChain(LevelNumber(l), q);
    p := ChainRestPhrase(l, q, left, ts, t1, 0, depth, recDepth);
  }

  lemma {:induction false} OperandPhrase(l: Level, ts: Toks, depth: nat, recDepth: nat) returns (p: Phrase)
    requires ParseOperand(l, ts, depth, recDepth).Some?
    ensures var (n, k) := ParseOperand(l, ts, depth, recDepth).value; Spells(p, LevelNumber(l) + 1, n, ts, k, depth, recDepth)
    decreases |ts|, Rank(l)
  {
    hide Shape, Within, Yield, NodeOf, LevelOf, ParseChain, ParseRelation, ParseUnary;
    match l
    case OrLevel => p := ChainPhrase(AndLevel, ts, depth, recDepth);
    case AndLevel => p := RelationPhrase(ts, depth, recDepth);
    case AddLevel => p := ChainPhrase(MulLevel, ts, depth, recDepth);
    case MulLevel => p := UnaryPhrase(ts, depth, recDepth);
  }

  /** The loop of a chain: q is what was read of it so far, from `whole` on. */
  lemma {:induction false} ChainRestPhrase(l: Level, q: Phrase, left: Node, whole: Toks, ts: Toks, count: nat, depth: nat, recDepth: nat)
    returns (p: Phrase)
    requires Spells(q, LevelNumber(l), left, whole, ts, depth, recDepth) && Operators(LevelNumber(l), q) == count
    requires ChainRest(l, left, ts, count, depth, recDepth).Some?
    ensures var (n, k) := ChainRest(l, left, ts, count, depth, recDepth).value;
      Spells(p, LevelNumber(l), n, whole, k, depth, recDepth)
    decreases |ts|, 0
  {
    hide Shape, Within, Yield, NodeOf, LevelOf, ParseOperand, Operators, LevelNumber, Advance, InChain;
    p := q;
    if InChain(l, Head(ts)) {
      var op := ChainOp(l, ts);
      var t1 := Advance(ts).value;
      var right := OperandPhrase(l, t1, depth, recDepth);
      var (rn, t2) := ParseOperand(l, t1, depth, recDepth).value;
      var q' := Operation(op, q, right);
      OperationFacts(q', t2, depth, recDepth);
      p := ChainRestPhrase(l, q', Bin(op, left, rn), whole, t2, count + 1, depth, recDepth);
    }
  }

  lemma ChainOp(l: Level, ts: Toks) returns (op: Op)
    requires InChain(l, Head(ts))
    ensures ts != [] && Head(ts) == Oper(op) && OpLevel(op) == LevelNumber(l) && OpLevel(op) != REL
    ensures Advance(ts).Some? ==> ts == [Oper(op)] + Advance(ts).value
  {
    op := Head(ts).op;
  }

  lemma {:induction false} RelationPhrase(ts: Toks, depth: nat, recDepth: nat) returns (p: Phrase)
    requires ParseRelation(ts, depth, recDepth).Some?
    ensures var (n, k) := ParseRelation(ts, depth, recDepth).value; Spells(p, REL, n, ts, k, depth, recDepth)
    decreases |ts|, 8
  {
    hide Shape, Within, Yield, NodeOf, LevelOf, ParseChain, RelationRest;
    var q := ChainPhrase(AddLevel, ts, depth, recDepth);
    var (left, t1) := ParseChain(AddLevel, ts, depth, recDepth).value;
    p := RelationRestPhrase(q, left, ts, t1, depth, recDepth);
  }

  lemma {:induction false} RelationRestPhrase(q: Phrase, left: Node, whole: Toks, ts: Toks, depth: nat, recDepth: nat)
    returns (p: Phrase)
    requires Spells(q, ADD, left, whole, ts, depth, recDepth) && RelationRest(left, ts, depth, recDepth).Some?
    ensures var (n, k) := RelationRest(left, ts, depth, recDepth).value; Spells(p, REL, n, whole, k, depth, recDepth)
    decreases |ts|, 1
  {
    RelationCases(left, ts, depth, recDepth);
    hide Shape, Within, Yield, NodeOf, LevelOf, RelationRest, IsRelOp;
    match Head(ts)
    case KwHas => p := HasPhrase(q, left, whole, ts, depth, recDepth);
    case KwLike => p := LikePhrase(q, left, whole, ts, depth, recDepth);
    case KwIs => p := IsPhrase(q, left, whole, ts, depth, recDepth);
    case Oper(op) =>
      if IsRelOp(op) {
        p := ComparePhrase(q, left, whole, ts, depth, recDepth);
      } else {
        p := q;
      }
    case _ => p := q;
  }

  lemma RelationCases(left: Node, ts: Toks, depth: nat, recDepth: nat)
    ensures Head(ts) !in {KwHas, KwLike, KwIs} && !(Head(ts).Oper? && IsRelOp(Head(ts).op)) ==>
      RelationRest(left, ts, depth, recDepth) == Some((left, ts))
  {
    hide IsRelOp, ParseChain;
  }

  lemma HasPhrase(q: Phrase, left: Node, whole: Toks, ts: Toks, depth: nat, recDepth: nat) returns (p: Phrase)
    requires Spells(q, ADD, left, whole, ts, depth, recDepth) && RelationRest(left, ts, depth, recDepth).Some? && Head(ts) == KwHas
    ensures var (n, k) := RelationRest(left, ts, depth, recDepth).value; Spells(p, REL, n, whole, k, depth, recDepth)
  {
    hide Shape, Within, Yield, NodeOf, LevelOf, Advance, ParseChain, ExtName;
    Taken(ts);
    var t1 := Advance(ts).value;
    Taken(t1);
    p := Presence(q, t1[0]);
    PresenceFacts(p, Advance(t1).value, depth, recDepth);
  }

  lemma LikePhrase(q: Phrase, left: Node, whole: Toks, ts: Toks, depth: nat, recDepth: nat) returns (p: Phrase)
    requires Spells(q, ADD, left, whole, ts, depth, recDepth) && RelationRest(left, ts, depth, recDepth).Some? && Head(ts) == KwLike
    ensures var (n, k) := RelationRest(left, ts, depth, recDepth).value; Spells(p, REL, n, whole, k, depth, recDepth)
  {
    hide Shape, Within, Yield, NodeOf, LevelOf, Advance, ParseChain, Pattern.Compiled;
    Taken(ts);
    var t1 := Advance(ts).value;
    Taken(t1);
    p := Matching(q, t1[0]);
    MatchingFacts(p, Advance(t1).value, depth, recDepth);
  }

  lemma {:induction false} IsPhrase(q: Phrase, left: Node, whole: Toks, ts: Toks, depth: nat, recDepth: nat) returns (p: Phrase)
    requires Spells(q, ADD, left, whole, ts, depth, recDepth) && RelationRest(left, ts, depth, recDepth).Some? && Head(ts) == KwIs
    ensures var (n, k) := RelationRest(left, ts, depth, recDepth).value; Spells(p, REL, n, whole, k, depth, recDepth)
    decreases |ts|, 0
  {
    hide Shape, Within, Yield, NodeOf, LevelOf, Advance, ParseChain, ParseTypeName, PartsTokens, Joined;
    Taken(ts);
    var t1 := Advance(ts).value;
    var parts := TypeParts(t1);
    var (ty, t2) := ParseTypeName(t1).value;
    if Head(t2) == Oper(In) {
      Taken(t2);
      var t3 := Advance(t2).value;
      var e := ChainPhrase(AddLevel, t3, depth, recDepth);
      p := Typing(q, parts, Some(e));
      TypingFacts(p, ParseChain(AddLevel, t3, depth, recDepth).value.1, depth, recDepth);
    } else {
      p := Typing(q, parts, None);
      TypingFacts(p, t2, depth, recDepth);
    }
  }

  lemma {:induction false} ComparePhrase(q: Phrase, left: Node, whole: Toks, ts: Toks, depth: nat, recDepth: nat) returns (p: Phrase)
    requires Spells(q, ADD, left, whole, ts, depth, recDepth) && RelationRest(left, ts, depth, recDepth).Some?
    requires Head(ts).Oper? && IsRelOp(Head(ts).op)
    ensures var (n, k) := RelationRest(left, ts, depth, recDepth).value; Spells(p, REL, n, whole, k, depth, recDepth)
    decreases |ts|, 0
  {
    hide Shape, Within, Yield, NodeOf, LevelOf, Advance, ParseChain;
    Taken(ts);
    var t1 := Advance(ts).value;
    var right := ChainPhrase(AddLevel, t1, depth, recDepth);
    p := Operation(Head(ts).op, q, right);
    OperationFacts(p, ParseChain(AddLevel, t1, depth, recDepth).value.1, depth, recDepth);
  }

  lemma {:induction false} UnaryPhrase(ts: Toks, depth: nat, recDepth: nat) returns (p: Phrase)
    requires ParseUnary(ts, depth, recDepth).Some?
    ensures var (n, k) := ParseUnary(ts, depth, recDepth).value; Spells(p, UNARY, n, ts, k, depth, recDepth)
    decreases |ts|, 3
  {
    if Head(ts) == Oper(Minus) {
      p := MinusPhrase(ts, depth, recDepth);
    } else if Head(ts) == Bang {
      p := BangPhrase(ts, depth, recDepth);
    } else {
      assert ParseUnary(ts, depth, recDepth) == ParseMember(ts, depth, recDepth);
      p := MemberPhrase(ts, depth, recDepth);
    }
    hide *;
  }

  lemma {:induction false} MinusPhrase(ts: Toks, depth: nat, recDepth: nat) returns (p: Phrase)
    requires ParseUnary(ts, depth, recDepth).Some? && Head(ts) == Oper(Minus)
    ensures var (n, k) := ParseUnary(ts, depth, recDepth).value; Spells(p, UNARY, n, ts, k, depth, recDepth)
    decreases |ts|, 2
  {
    hide Shape, Within, Yield, NodeOf, LevelOf, Advance, NumberFirst, ParseMember, DecValue;
    Taken(ts);
    var t1 := Advance(ts).value;
    if Head(t1).Number? {
      Taken(t1);
      p := NegDigits(t1[0].digits);
      NegDigitsFacts(t1[0].digits, Advance(t1).value, depth, recDepth);
    } else {
      var e := UnaryPhrase(t1, depth + 1, recDepth);
      p := Negation(e);
      var k := ParseUnary(t1, depth + 1, recDepth).value.1;
      UnaryFacts(p, k, depth, recDepth);
      NumberAhead(e, k);
    }
  }

  lemma NumberAhead(e: Phrase, k: Toks)
    requires Shape(e) && LevelOf(e) >= UNARY
    ensures Yield(e, k) != [] && (Head(Yield(e, k)).Number? <==> NumberFirst(e))
  {
    YieldHead(e, k);
    hide Yield, Shape, LevelOf, NumberFirst;
  }

  lemma {:induction false} BangPhrase(ts: Toks, depth: nat, recDepth: nat) returns (p: Phrase)
    requires ParseUnary(ts, depth, recDepth).Some? && Head(ts) == Bang
    ensures var (n, k) := ParseUnary(ts, depth, recDepth).value; Spells(p, UNARY, n, ts, k, depth, recDepth)
    decreases |ts|, 2
  {
    hide Shape, Within, Yield, NodeOf, LevelOf, Advance, ParseMember;
    Taken(ts);
    var t1 := Advance(ts).value;
    var e := UnaryPhrase(t1, depth + 1, recDepth);
    p := Complement(e);
    UnaryFacts(p, ParseUnary(t1, depth + 1, recDepth).value.1, depth, recDepth);
  }

  // ---- Member chains ----

  lemma {:induction false} MemberPhrase(ts: Toks, depth: nat, recDepth: nat) returns (p: Phrase)
    requires ParseMember(ts, depth, recDepth).Some?
    ensures var (n, k) := ParseMember(ts, depth, recDepth).value; Spells(p, MEMBER, n, ts, k, depth, recDepth)
    decreases |ts|, 2
  {
    hide Shape, Within, Yield, NodeOf, LevelOf, MemberSteps, ParsePrimary, MemberRest;
    var q := PrimaryPhrase(ts, depth, recDepth);
    var (base, t1) := ParsePrimary(ts, depth, recDepth).value;
    p := MemberRestPhrase(q, base, ts, t1, 0, depth, recDepth);
  }

  lemma {:induction false} MemberRestPhrase(q: Phrase, obj: Node, whole: Toks, ts: Toks, count: nat, depth: nat, recDepth: nat)
    returns (p: Phrase)
    requires Spells(q, MEMBER, obj, whole, ts, depth, recDepth) && MemberSteps(q) == count
    requires MemberRest(obj, ts, count, depth, recDepth).Some?
    ensures var (n, k) := MemberRest(obj, ts, count, depth, recDepth).value; Spells(p, MEMBER, n, whole, k, depth, recDepth)
    decreases |ts|, 2
  {
    hide Shape, Within, Yield, NodeOf, LevelOf, MemberSteps, ParseStep;
    p := q;
    if Head(ts) == Dot || Head(ts) == LBracket {
      var q' := StepPhrase(q, obj, whole, ts, depth, recDepth);
      var (step, t1) := ParseStep(obj, ts, depth, recDepth).value;
      p := MemberRestPhrase(q', step, whole, t1, count + 1, depth, recDepth);
    }
  }

  lemma {:induction false} StepPhrase(q: Phrase, obj: Node, whole: Toks, ts: Toks, depth: nat, recDepth: nat) returns (p: Phrase)
    requires Spells(q, MEMBER, obj, whole, ts, depth, recDepth) && MemberSteps(q) < 16
    requires ts != [] && (Head(ts) == Dot || Head(ts) == LBracket) && ParseStep(obj, ts, depth, recDepth).Some?
    ensures var (n, k) := ParseStep(obj, ts, depth, recDepth).value;
      Spells(p, MEMBER, n, whole, k, depth, recDepth) && MemberSteps(p) == MemberSteps(q) + 1
    decreases |ts|, 1
  {
    hide Shape, Within, Yield, NodeOf, LevelOf, MemberSteps, ParseBracketStep, ParseDotStep;
    if Head(ts) == LBracket {
      p := IndexPhrase(q, obj, whole, ts, depth, recDepth);
    } else {
      p := DotPhrase(q, obj, whole, ts, depth, recDepth);
    }
  }

  lemma IndexPhrase(q: Phrase, obj: Node, whole: Toks, ts: Toks, depth: nat, recDepth: nat) returns (p: Phrase)
    requires Spells(q, MEMBER, obj, whole, ts, depth, recDepth) && MemberSteps(q) < 16
    requires ts != [] && Head(ts) == LBracket && ParseBracketStep(obj, ts).Some?
    ensures var (n, k) := ParseBracketStep(obj, ts).value;
      Spells(p, MEMBER, n, whole, k, depth, recDepth) && MemberSteps(p) == MemberSteps(q) + 1
  {
    hide Shape, Within, Yield, NodeOf, LevelOf, MemberSteps, Advance, Expect;
    Taken(ts);
    var t1 := Advance(ts).value;
    Taken(t1);
    var t2 := Advance(t1).value;
    TakenToken(t2, RBracket);
    p := Index(q, t1[0]);
    StepFacts(p, Expect(t2, RBracket).value, depth, recDepth);
    MemberIsTightest(q);
  }

  lemma MemberIsTightest(q: Phrase)
    ensures LevelOf(q) >= MEMBER ==> LevelOf(q) == MEMBER
  {
    hide LevelOf;
  }

  lemma {:induction false} DotPhrase(q: Phrase, obj: Node, whole: Toks, ts: Toks, depth: nat, recDepth: nat) returns (p: Phrase)
    requires Spells(q, MEMBER, obj, whole, ts, depth, recDepth) && MemberSteps(q) < 16
    requires ts != [] && Head(ts) == Dot && ParseDotStep(obj, ts, depth, recDepth).Some?
    ensures var (n, k) := ParseDotStep(obj, ts, depth, recDepth).value;
      Spells(p, MEMBER, n, whole, k, depth, recDepth) && MemberSteps(p) == MemberSteps(q) + 1
    decreases |ts|, 0
  {
    hide Shape, Within, Yield, NodeOf, LevelOf, MemberSteps, Advance, ParseCall, ExtName;
    Taken(ts);
    var t1 := Advance(ts).value;
    Taken(t1);
    var t2 := Advance(t1).value;
    MemberIsTightest(q);
    if Head(t2) == LParen {
      p := CallPhrase(q, obj, t1[0], whole, ts, t2, depth, recDepth);
    } else {
      p := Access(q, t1[0]);
      StepFacts(p, t2, depth, recDepth);
    }
  }

  lemma {:induction false} CallPhrase(q: Phrase, obj: Node, name: Token, whole: Toks, ts: Toks, t: Toks, depth: nat, recDepth: nat)
    returns (p: Phrase)
    requires Spells(q, MEMBER, obj, whole, ts, depth, recDepth) && MemberSteps(q) < 16 && LevelOf(q) == MEMBER
    requires t != [] && Head(t) == LParen && ts == [Dot] + ([name] + t) && IsBare(name)
    requires ParseCall(obj, NameOf(name), t, depth, recDepth).Some?
    ensures var (n, k) := ParseCall(obj, NameOf(name), t, depth, recDepth).value;
      Spells(p, MEMBER, n, whole, k, depth, recDepth) && MemberSteps(p) == MemberSteps(q) + 1
    decreases |t|, 0
  {
    hide Shape, Within, WithinExpr, Yield, NodeOf, LevelOf, MemberSteps, Advance, Expect, ParseExpr, NameOf, IsBare;
    Taken(t);
    var t1 := Advance(t).value;
    if Head(t1) == RParen {
      Taken(t1);
      p := Invoke(q, name, None);
      StepFacts(p, Advance(t1).value, depth, recDepth);
    } else {
      var arg := ExprPhrase(t1, depth, recDepth);
      var t2 := ParseExpr(t1, depth, recDepth).value.1;
      TakenToken(t2, RParen);
      p := Invoke(q, name, Some(arg));
      StepFacts(p, Expect(t2, RParen).value, depth, recDepth);
    }
  }

  // ---- Primary expressions ----

  lemma {:induction false} PrimaryPhrase(ts: Toks, depth: nat, recDepth: nat) returns (p: Phrase)
    requires ParsePrimary(ts, depth, recDepth).Some?
    ensures var (n, k) := ParsePrimary(ts, depth, recDepth).value;
      Spells(p, MEMBER, n, ts, k, depth, recDepth) && MemberSteps(p) == 0
    decreases |ts|, 1
  {
    hide Shape, Within, Yield, NodeOf, LevelOf, MemberSteps, IsStep, Advance, ParseExtension, ParseParenthesized, ParseSet,
      ParseRecord, ParseEntityRef, LongOf, PlainString;
    match Head(ts) {
      case KwExt(kind) => p := ExtensionPhrase(kind, ts, depth, recDepth);
      case Ident(_) => p := EntityPhrase(ts, depth, recDepth);
      case LParen => p := ParensPhrase(ts, depth, recDepth);
      case LBracket => p := SetPhrase(ts, depth, recDepth);
      case LBrace => p := RecordPhrase(ts, depth, recDepth);
      case _ => p := LeafPhrase(ts, depth, recDepth);
    }
    PrimaryIsNoStep(p);
    MemberIsTightest(p);
    NoSteps(p);
  }

  lemma PrimaryIsNoStep(p: Phrase)
    ensures !IsStep(p) <==> !p.Access? && !p.Index? && !p.Invoke?
  {
  }

  lemma LeafPhrase(ts: Toks, depth: nat, recDepth: nat) returns (p: Phrase)
    requires ParsePrimary(ts, depth, recDepth).Some?
    requires !Head(ts).KwExt? && !Head(ts).Ident? && Head(ts) != LParen && Head(ts) != LBracket && Head(ts) != LBrace
    ensures var (n, k) := ParsePrimary(ts, depth, recDepth).value; Spells(p, MEMBER, n, ts, k, depth, recDepth) && IsLeaf(p)
  {
    hide Shape, Within, Yield, NodeOf, LevelOf, DecValue, Advance, ParseExtension, ParseParenthesized, ParseSet, ParseRecord,
      ParseEntityRef;
    Taken(ts);
    match Head(ts) {
      case Number(digits) => p := Digits(digits);
      case Str(_, _, _) => p := Quoted(ts[0]);
      case KwVar(v) => p := Variable(v);
      case KwTrue => p := Truth(true);
      case KwFalse => p := Truth(false);
    }
    LeafFacts(p, Advance(ts).value, depth, recDepth);
  }

  lemma ExtensionPhrase(kind: ExtKind, ts: Toks, depth: nat, recDepth: nat) returns (p: Phrase)
    requires ts != [] && Head(ts) == KwExt(kind) && ParseExtension(kind, ts).Some?
    ensures var (n, k) := ParseExtension(kind, ts).value; Spells(p, MEMBER, n, ts, k, depth, recDepth) && p.Extension?
  {
    hide Shape, Within, Yield, NodeOf, LevelOf, Advance, Expect;
    Taken(ts);
    var t1 := Advance(ts).value;
    TakenToken(t1, LParen);
    var t2 := Expect(t1, LParen).value;
    Taken(t2);
    var t3 := Advance(t2).value;
    TakenToken(t3, RParen);
    p := Extension(kind, t2[0]);
    ExtensionFacts(p, Expect(t3, RParen).value, depth, recDepth);
  }

  lemma {:induction false} ParensPhrase(ts: Toks, depth: nat, recDepth: nat) returns (p: Phrase)
    requires ts != [] && Head(ts) == LParen && ParseParenthesized(ts, depth, recDepth).Some?
    ensures var (n, k) := ParseParenthesized(ts, depth, recDepth).value; Spells(p, MEMBER, n, ts, k, depth, recDepth) && p.Parens?
    decreases |ts|, 0
  {
    hide Shape, Within, WithinExpr, Yield, NodeOf, LevelOf, Advance, Expect, ParseExpr;
    Taken(ts);
    var t1 := Advance(ts).value;
    var e := ExprPhrase(t1, depth, recDepth);
    var t2 := ParseExpr(t1, depth, recDepth).value.1;
    TakenToken(t2, RParen);
    p := Parens(e);
    ParensFacts(p, Expect(t2, RParen).value, depth, recDepth);
  }

  lemma {:induction false} SetPhrase(ts: Toks, depth: nat, recDepth: nat) returns (p: Phrase)
    requires ts != [] && Head(ts) == LBracket && ParseSet(ts, depth, recDepth).Some?
    ensures var (n, k) := ParseSet(ts, depth, recDepth).value; Spells(p, MEMBER, n, ts, k, depth, recDepth) && p.Elements?
    decreases |ts|, 0
  {
    hide Shape, Within, WithinExpr, WithinElts, Yield, YieldElts, NodeOf, NodesOf, LevelOf, Advance, Expect, ParseExpr, SetRest;
    Taken(ts);
    var t1 := Advance(ts).value;
    var k := ParseSet(ts, depth, recDepth).value.1;
    if Head(t1) == RBracket {
      Taken(t1);
      p := Elements([]);
    } else {
      var first := ExprPhrase(t1, depth, recDepth);
      var (n, t2) := ParseExpr(t1, depth, recDepth).value;
      var tail := SetRestPhrases([n], t2, depth, recDepth);
      TakenToken(SetRest([n], t2, depth, recDepth).value.1, RBracket);
      var elts := [first] + tail;
      assert elts[1..] == tail;
      p := Elements(elts);
      EltsFacts(elts, [RBracket] + k, depth, recDepth);
    }
    EltsFacts([], [RBracket] + k, depth, recDepth);
    ElementsFacts(p, k, depth, recDepth);
  }

  lemma {:induction false} SetRestPhrases(done: seq<Node>, ts: Toks, depth: nat, recDepth: nat) returns (elts: seq<Phrase>)
    requires |done| <= 256 && SetRest(done, ts, depth, recDepth).Some?
    ensures var (all, k) := SetRest(done, ts, depth, recDepth).value;
      && (forall i :: 0 <= i < |elts| ==> Shape(elts[i])) && WithinElts(elts, depth, recDepth)
      && |done| + |elts| <= 256 && all == done + NodesOf(elts) && ts == YieldElts(elts, k)
    decreases |ts|, 0
  {
    hide Shape, WithinExpr, WithinElts, Yield, YieldElts, NodeOf, NodesOf, Advance, ParseExpr;
    elts := [];
    var k := SetRest(done, ts, depth, recDepth).value.1;
    EltsFacts([], k, depth, recDepth);
    if Head(ts) == Comma {
      Taken(ts);
      var t1 := Advance(ts).value;
      var e := ExprPhrase(t1, depth, recDepth);
      var (n, t2) := ParseExpr(t1, depth, recDepth).value;
      var tail := SetRestPhrases(done + [n], t2, depth, recDepth);
      elts := [e] + tail;
      assert elts[1..] == tail;
      EltsFacts(elts, k, depth, recDepth);
      assert done + [n] + NodesOf(tail) == done + ([n] + NodesOf(tail));
    } else {
      assert done + [] == done;
    }
  }

  // ---- Records ----

  lemma {:induction false} RecordPhrase(ts: Toks, depth: nat, recDepth: nat) returns (p: Phrase)
    requires ts != [] && Head(ts) == LBrace && ParseRecord(ts, depth, recDepth).Some?
    ensures var (n, k) := ParseRecord(ts, depth, recDepth).value; Spells(p, MEMBER, n, ts, k, depth, recDepth) && p.Fields?
    decreases |ts|, 0
  {
    hide Shape, ShapeField, Within, WithinFields, DistinctNames, Yield, YieldFields, NodeOf, EntriesOf, LevelOf, Advance, Expect,
      ParseEntries;
    Taken(ts);
    var t1 := Advance(ts).value;
    var k := ParseRecord(ts, depth, recDepth).value.1;
    if Head(t1) == RBrace {
      Taken(t1);
      p := Fields([], false);
      EntriesFacts([], [RBrace] + k, depth, recDepth + 1);
      PhraseReading.NoFields();
    } else {
      var fields, comma := EntriesPhrases([], t1, depth, recDepth + 1);
      var (all, t2) := ParseEntries([], t1, depth, recDepth + 1).value;
      TakenToken(t2, RBrace);
      PhraseReading.FreshFromNone(fields);
      assert [] + EntriesOf(fields) == EntriesOf(fields);
      p := Fields(fields, comma);
    }
    assert [] + ([RBrace] + k) == [RBrace] + k;
    FieldsFacts(p, k, depth, recDepth);
  }

  lemma {:induction false} EntriesPhrases(done: seq<Entry>, ts: Toks, depth: nat, recDepth: nat)
    returns (fields: seq<Field>, comma: bool)
    requires |done| <= 64 && ParseEntries(done, ts, depth, recDepth).Some?
    ensures var (all, k) := ParseEntries(done, ts, depth, recDepth).value;
      && fields != [] && (forall i :: 0 <= i < |fields| ==> ShapeField(fields[i])) && WithinFields(fields, depth, recDepth)
      && |done| + |fields| <= 64 && PhraseReading.Fresh(done, fields) && all == done + EntriesOf(fields)
      && ts == YieldFields(fields, (if comma then [Comma] else []) + k)
    decreases |ts|, 1
  {
    hide ShapeField, WithinExpr, WithinFields, Yield, YieldFields, NodeOf, EntriesOf, Advance, ParseEntry, PhraseReading.Fresh, HasKey,
      NameOf;
    var f := EntryPhrase(done, ts, depth, recDepth);
    var (e, t1) := ParseEntry(done, ts, depth, recDepth).value;
    var (all, k) := ParseEntries(done, ts, depth, recDepth).value;
    fields, comma := [f], false;
    assert fields[1..] == [];
    PhraseReading.FreshStep(done, fields, e.value);
    PhraseReading.FreshNone(done + [e]);
    if Head(t1) == Comma {
      Taken(t1);
      var t2 := Advance(t1).value;
      if Head(t2) == RBrace {
        comma := true;
      } else {
        var tail;
        tail, comma := EntriesPhrases(done + [e], t2, depth, recDepth);
        fields := [f] + tail;
        assert fields[1..] == tail;
        PhraseReading.FreshStep(done, fields, e.value);
        assert done + [e] + EntriesOf(tail) == done + ([e] + EntriesOf(tail));
      }
    }
    EntriesFacts([], (if comma then [Comma] else []) + k, depth, recDepth);
    EntriesFacts(fields, (if comma then [Comma] else []) + k, depth, recDepth);
    assert [] + k == k && done + ([e] + []) == done + [e];
  }

  lemma {:induction false} EntryPhrase(done: seq<Entry>, ts: Toks, depth: nat, recDepth: nat) returns (f: Field)
    requires ParseEntry(done, ts, depth, recDepth).Some?
    ensures var (e, k) := ParseEntry(done, ts, depth, recDepth).value;
      && ShapeField(f) && |done| < 64 && !HasKey(done, NameOf(f.key)) && WithinExpr(f.value, depth, recDepth)
      && e == Entry(NameOf(f.key), NodeOf(f.value)) && ts == [f.key] + ([Colon] + Yield(f.value, k))
    decreases |ts|, 0
  {
    hide Shape, WithinExpr, Yield, NodeOf, Advance, Expect, ParseExpr, HasKey, ExtName;
    Taken(ts);
    var t1 := Advance(ts).value;
    TakenToken(t1, Colon);
    var t2 := Expect(t1, Colon).value;
    var value := ExprPhrase(t2, depth, recDepth);
    f := Field(ts[0], value);
  }

  // ---- The language ----

  /** Exactly the phrases of the grammar that keep the limits are read, each as what it stands for. */
  lemma GrammarExactly(ts: Toks, n: Node, k: Toks, depth: nat, recDepth: nat)
    requires RoundTrip.Stops(Head(k), EXPR)
    ensures ParseExpr(ts, depth, recDepth) == Some((n, k)) <==> exists p :: SpellsExpr(p, n, ts, k, depth, recDepth)
  {
    hide ParseExpr, Shape, NodeOf, Yield, WithinExpr;
    if ParseExpr(ts, depth, recDepth) == Some((n, k)) {
      var p := ExprPhrase(ts, depth, recDepth);
    }
    forall p | SpellsExpr(p, n, ts, k, depth, recDepth) ensures ParseExpr(ts, depth, recDepth) == Some((n, k)) {
      PhraseReading.ReadExpr(p, k, depth, recDepth);
    }
  }
}
