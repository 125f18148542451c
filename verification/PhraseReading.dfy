/**
 * The parser reads every phrase of the grammar as the expression it stands for exactly when it keeps the
 * limits, whatever follows, unless that continues the phrase.
 */
module PhraseReading {
  import opened Common
  import opened Digits
  import opened Syntax
  import opened Grammar
  import opened Printer
  import opened Phrases
  import opened RoundTrip
  import Pattern

  /** What is read when p stands before k: its expression, if it keeps the limits. */
  function Read(p: Phrase, ok: bool, k: Toks): Option<(Node, Toks)> {
    if ok then Some((NodeOf(p), k)) else None
  }

  // ---- Steps of the parser on any tokens ----

  lemma {:induction false} ReadPartsRest(name: string, done: nat, parts: seq<string>, k: Toks)
    requires parts != [] && Stops(Head(k), MEMBER) && done >= 1
    ensures TypeNameRest(name, done, [ColonColon] + PartsTokens(parts, k)) ==
      if done + |parts| <= 16 then Some((name + "::" + Joined(parts), k)) else None
    decreases |parts|
  {
    hide TypeNameRest, PartsTokens, Joined;
    PartsFacts(parts, k);
    PartsStep(name, done, parts[0], if |parts| == 1 then k else [ColonColon] + PartsTokens(parts[1..], k));
    if |parts| == 1 {
      NoMoreParts(name + "::" + parts[0], done + 1, k);
    } else if done + 1 <= 16 {
      ReadPartsRest(name + "::" + parts[0], done + 1, parts[1..], k);
      Regroup(name, "::", parts[0], "::" + Joined(parts[1..]));
      assert name + "::" + parts[0] + "::" + Joined(parts[1..]) == name + "::" + (parts[0] + "::" + Joined(parts[1..]));
    }
  }

  lemma PartsStep(name: string, done: nat, next: string, k: Toks)
    requires !Head(k).ErrorToken?
    ensures TypeNameRest(name, done, [ColonColon] + ([Ident(next)] + k)) ==
      if done + 1 > 16 then None else TypeNameRest(name + "::" + next, done + 1, k)
  {
    TakeOne(ColonColon, [Ident(next)] + k);
    TakeOne(Ident(next), k);
  }

  lemma NoMoreParts(name: string, done: nat, k: Toks)
    requires Head(k) != ColonColon
    ensures TypeNameRest(name, done, k) == Some((name, k))
  {
  }

  lemma FirstPart(name: string, k: Toks)
    requires !Head(k).ErrorToken?
    ensures ParseTypeName([Ident(name)] + k) == TypeNameRest(name, 1, k)
  {
    hide TypeNameRest;
    TakeOne(Ident(name), k);
  }

  lemma ReadParts(parts: seq<string>, k: Toks)
    requires parts != [] && Stops(Head(k), MEMBER)
    ensures ParseTypeName(PartsTokens(parts, k)) == if |parts| <= 16 then Some((Joined(parts), k)) else None
    ensures !Head(PartsTokens(parts, k)).ErrorToken?
  {
    hide *;
    PartsFacts(parts, k);
    StopsIs(k);
    if |parts| == 1 {
      FirstPart(parts[0], k);
      NoMoreParts(parts[0], 1, k);
    } else {
      StopsIs(PartsTokens(parts[1..], k));
      FirstPart(parts[0], [ColonColon] + PartsTokens(parts[1..], k));
      ReadPartsRest(parts[0], 1, parts[1..], k);
    }
    PartsBegin(parts, k);
  }

  lemma StopsIs(k: Toks)
    ensures Stops(Head(k), MEMBER) ==> !Head(k).ErrorToken? && Head(k) != LParen && Head(k) != ColonColon
    ensures !Head([ColonColon] + k).ErrorToken?
  {
  }

  lemma PartsBegin(parts: seq<string>, k: Toks)
    requires parts != []
    ensures Head(PartsTokens(parts, k)) == Ident(parts[0])
  {
  }

  lemma {:induction false} ReadEntityRest(name: string, done: nat, parts: seq<string>, t: Token, k: Toks)
    requires parts != [] && IsPlain(t) && !Head(k).ErrorToken? && done >= 1
    ensures ParseEntityRef(name, done, [ColonColon] + PartsTokens(parts, [ColonColon] + ([t] + k))) ==
      if done + |parts| <= 16 then Some((EntityRef(name + "::" + Joined(parts), NameOf(t)), k)) else None
    decreases |parts|
  {
    hide ParseEntityRef, PartsTokens, Joined, IsPlain, NameOf;
    var K := [ColonColon] + ([t] + k);
    PartsFacts(parts, K);
    NextPart(name, done, parts[0], if |parts| == 1 then K else [ColonColon] + PartsTokens(parts[1..], K));
    if |parts| == 1 {
      ReadIdToken(name + "::" + parts[0], done + 1, t, k);
    } else if done + 1 <= 16 {
      ReadEntityRest(name + "::" + parts[0], done + 1, parts[1..], t, k);
      assert name + "::" + parts[0] + "::" + Joined(parts[1..]) == name + "::" + (parts[0] + "::" + Joined(parts[1..]));
    }
  }

  lemma NextPart(name: string, done: nat, next: string, k: Toks)
    requires !Head(k).ErrorToken?
    ensures ParseEntityRef(name, done, [ColonColon] + ([Ident(next)] + k)) ==
      if done + 1 > 16 then None else ParseEntityRef(name + "::" + next, done + 1, k)
  {
    TakeOne(ColonColon, [Ident(next)] + k);
    TakeOne(Ident(next), k);
  }

  lemma ReadIdToken(name: string, done: nat, t: Token, k: Toks)
    requires IsPlain(t) && !Head(k).ErrorToken?
    ensures ParseEntityRef(name, done, [ColonColon] + ([t] + k)) == Some((EntityRef(name, NameOf(t)), k))
  {
    TakeOne(ColonColon, [t] + k);
    TakeOne(t, k);
  }

  lemma ReadEntityPhrase(parts: seq<string>, t: Token, k: Toks, depth: nat, recDepth: nat)
    requires parts != [] && IsPlain(t) && !Head(k).ErrorToken?
    ensures ParsePrimary(PartsTokens(parts, [ColonColon] + ([t] + k)), depth, recDepth) ==
      if |parts| <= 16 then Some((EntityRef(Joined(parts), NameOf(t)), k)) else None
  {
    var K := [ColonColon] + ([t] + k);
    hide *;
    PartsFacts(parts, K);
    var rest := if |parts| == 1 then K else [ColonColon] + PartsTokens(parts[1..], K);
    PartsBegin(parts, K);
    ColonsFollow(parts[0], rest);
    PrimaryIdent([Ident(parts[0])] + rest, depth, recDepth);
    if |parts| == 1 {
      ReadIdToken(parts[0], 1, t, k);
    } else {
      ReadEntityRest(parts[0], 1, parts[1..], t, k);
    }
  }

  lemma ColonsFollow(name: string, rest: Toks)
    requires rest != [] && rest[0] == ColonColon
    ensures var ts := [Ident(name)] + rest; ts[1..] == rest && !Head(ts[1..]).ErrorToken?
  {
  }

  lemma ReadLeaf(p: Phrase, k: Toks, depth: nat, recDepth: nat)
    requires IsLeaf(p) && Shape(p) && !Head(k).ErrorToken?
    ensures ParsePrimary([LeafToken(p)] + k, depth, recDepth) == Read(p, Within(p, depth, recDepth), k)
  {
    LeafFacts(p, k, depth, recDepth);
    TakeOne(LeafToken(p), k);
    hide Shape, Within, NodeOf, DecValue, ParseSet, ParseRecord, ParseEntityRef, ParseParenthesized, ParseExtension, Advance;
  }

  lemma ReadExtensionToken(kind: ExtKind, t: Token, k: Toks, depth: nat, recDepth: nat)
    requires IsPlain(t) && !Head(k).ErrorToken?
    ensures ParsePrimary([KwExt(kind)] + ([LParen] + ([t] + ([RParen] + k))), depth, recDepth) == Some((ExtLit(kind, NameOf(t)), k))
  {
    hide *;
    PrimaryExtension(kind, [LParen] + ([t] + ([RParen] + k)), depth, recDepth);
    ExtensionText(kind, t, k);
  }

  lemma PrimaryExtension(kind: ExtKind, ts: Toks, depth: nat, recDepth: nat)
    ensures ParsePrimary([KwExt(kind)] + ts, depth, recDepth) == ParseExtension(kind, [KwExt(kind)] + ts)
  {
    hide ParseSet, ParseRecord, ParseEntityRef, ParseParenthesized, ParseExtension, Advance;
  }

  lemma ExtensionText(kind: ExtKind, t: Token, k: Toks)
    requires IsPlain(t) && !Head(k).ErrorToken?
    ensures ParseExtension(kind, [KwExt(kind)] + ([LParen] + ([t] + ([RParen] + k)))) == Some((ExtLit(kind, NameOf(t)), k))
  {
    hide *;
    var t3 := [RParen] + k;
    var t2 := [t] + t3;
    var t1 := [LParen] + t2;
    NotErrors(t, k);
    NotErrors(t, t2);
    NotErrors(t, t3);
    TakeOne(KwExt(kind), t1);
    TakeOne(LParen, t2);
    TakeOne(t, t3);
    TakeOne(RParen, k);
    ExtensionParts(kind, [KwExt(kind)] + t1, t1, t2, t3, t, k);
  }

  /** Tokens that are not errors, in front. */
  lemma NotErrors(t: Token, k: Toks)
    ensures (IsPlain(t) || IsBare(t)) ==> !Head([t] + k).ErrorToken? && Head([t] + k) == t
    ensures !Head([LParen] + k).ErrorToken? && !Head([RParen] + k).ErrorToken?
    ensures !Head([RBracket] + k).ErrorToken? && !Head([Colon] + k).ErrorToken?
  {
  }

  lemma ExtensionParts(kind: ExtKind, ts: Toks, t1: Toks, t2: Toks, t3: Toks, t: Token, k: Toks)
    requires ts != [] && Advance(ts) == Some(t1) && Expect(t1, LParen) == Some(t2)
    requires t2 != [] && Head(t2) == t && IsPlain(t) && Advance(t2) == Some(t3) && Expect(t3, RParen) == Some(k)
    ensures ParseExtension(kind, ts) == Some((ExtLit(kind, NameOf(t)), k))
  {
    hide Advance, Expect;
  }

  // ---- Relations ----

  lemma RelationOper(n: Node, op: Op, k: Toks, depth: nat, recDepth: nat)
    requires OpLevel(op) == REL && !Head(k).ErrorToken?
    ensures ADD <= MEMBER
    ensures RelationRest(n, [Oper(op)] + k, depth, recDepth) ==
      var r := ParseAt(ADD, k, depth, recDepth);
      if r.None? then None else Some((Bin(op, n, r.value.0), r.value.1))
  {
    TakeOne(Oper(op), k);
    hide ParseChain, Advance;
  }

  lemma RelationName(n: Node, name: Token, k: Toks, depth: nat, recDepth: nat)
    requires (IsBare(name) || IsPlain(name)) && !Head(k).ErrorToken?
    ensures RelationRest(n, [KwHas] + ([name] + k), depth, recDepth) == Some((Has(n, NameOf(name)), k))
  {
    TakeOne(KwHas, [name] + k);
    TakeOne(name, k);
    hide Advance, ExtName;
  }

  lemma RelationPattern(n: Node, t: Token, k: Toks, depth: nat, recDepth: nat)
    requires t.Str? && Pattern.Compiled(t.raw).Some? && !Head(k).ErrorToken?
    ensures RelationRest(n, [KwLike] + ([t] + k), depth, recDepth) == Some((Like(n, PatternOf(t)), k))
  {
    TakeOne(KwLike, [t] + k);
    TakeOne(t, k);
    hide Advance, Pattern.Compiled;
  }

  lemma RelationTyping(n: Node, parts: seq<string>, k: Toks, depth: nat, recDepth: nat)
    requires parts != [] && Stops(Head(k), MEMBER)
    ensures ADD <= MEMBER
    ensures RelationRest(n, [KwIs] + PartsTokens(parts, k), depth, recDepth) ==
      if |parts| > 16 then None
      else if Head(k) != Oper(In) then Some((Is(n, Joined(parts), None), k))
      else
        var t := Advance(k);
        if t.None? then None
        else
          var r := ParseAt(ADD, t.value, depth, recDepth);
          if r.None? then None else Some((Is(n, Joined(parts), Some(r.value.0)), r.value.1))
  {
    hide *;
    ReadParts(parts, k);
    RelationType(n, PartsTokens(parts, k), depth, recDepth);
  }

  lemma RelationType(n: Node, ts: Toks, depth: nat, recDepth: nat)
    requires !Head(ts).ErrorToken?
    ensures ADD <= MEMBER
    ensures RelationRest(n, [KwIs] + ts, depth, recDepth) ==
      var ty := ParseTypeName(ts);
      if ty.None? then None
      else if Head(ty.value.1) != Oper(In) then Some((Is(n, ty.value.0, None), ty.value.1))
      else
        var t := Advance(ty.value.1);
        if t.None? then None
        else
          var r := ParseAt(ADD, t.value, depth, recDepth);
          if r.None? then None else Some((Is(n, ty.value.0, Some(r.value.0)), r.value.1))
  {
    TakeOne(KwIs, ts);
    hide ParseTypeName, ParseChain, Advance;
  }

  // ---- Member steps ----

  lemma StepAccess(n: Node, name: Token, k: Toks, depth: nat, recDepth: nat)
    requires IsBare(name) && !Head(k).ErrorToken?
    ensures ParseStep(n, [Dot] + ([name] + k), depth, recDepth) ==
      if Head(k) == LParen then ParseCall(n, NameOf(name), k, depth, recDepth) else Some((GetAttr(n, NameOf(name)), k))
  {
    TakeOne(Dot, [name] + k);
    TakeOne(name, k);
    hide ParseCall, Advance, ExtName;
  }

  lemma StepIndex(n: Node, key: Token, k: Toks, depth: nat, recDepth: nat)
    requires IsPlain(key) && key.value != "" && !Head(k).ErrorToken?
    ensures ParseStep(n, [LBracket] + ([key] + ([RBracket] + k)), depth, recDepth) == Some((GetAttr(n, NameOf(key)), k))
  {
    var ts := [LBracket] + ([key] + ([RBracket] + k));
    assert ParseStep(n, ts, depth, recDepth) == ParseBracketStep(n, ts);
    hide *;
    var t2 := [RBracket] + k;
    var t1 := [key] + t2;
    NotErrors(key, t2);
    NotErrors(key, k);
    TakeOne(LBracket, t1);
    TakeOne(key, t2);
    TakeOne(RBracket, k);
    IndexParts(n, [LBracket] + t1, t1, t2, key, k);
  }

  lemma IndexParts(n: Node, ts: Toks, t1: Toks, t2: Toks, key: Token, k: Toks)
    requires ts != [] && Advance(ts) == Some(t1) && t1 != [] && Head(t1) == key && IsPlain(key) && key.value != ""
    requires Advance(t1) == Some(t2) && Expect(t2, RBracket) == Some(k)
    ensures ParseBracketStep(n, ts) == Some((GetAttr(n, NameOf(key)), k))
  {
    hide Advance, Expect;
  }

  lemma CallEmpty(n: Node, name: string, k: Toks, depth: nat, recDepth: nat)
    requires !Head(k).ErrorToken?
    ensures ParseCall(n, name, [LParen] + ([RParen] + k), depth, recDepth) == Some((Call(n, name, None), k))
  {
    TakeOne(LParen, [RParen] + k);
    TakeOne(RParen, k);
    hide ParseExpr, Advance, Expect;
  }

  lemma CallArgument(n: Node, name: string, ts: Toks, k: Toks, depth: nat, recDepth: nat)
    requires ts != [] && !Head(ts).ErrorToken? && Head(ts) != RParen && !Head(k).ErrorToken?
    requires var r := ParseExpr(ts, depth, recDepth); r.Some? ==> r.value.1 == [RParen] + k
    ensures ParseCall(n, name, [LParen] + ts, depth, recDepth) ==
      var r := ParseExpr(ts, depth, recDepth);
      if r.None? then None else Some((Call(n, name, Some(r.value.0)), k))
  {
    TakeOne(LParen, ts);
    TakeOne(RParen, k);
    hide ParseExpr, Advance, Expect;
  }

  // ---- The induction ----

  /** A whole expression. */
  lemma {:induction false} ReadExpr(p: Phrase, k: Toks, depth: nat, recDepth: nat)
    requires Shape(p) && Stops(Head(k), EXPR)
    ensures ParseExpr(Yield(p, k), depth, recDepth) == Read(p, WithinExpr(p, depth, recDepth), k)
    ensures !Head(Yield(p, k)).ErrorToken? && Head(Yield(p, k)) !in {RParen, RBracket, RBrace}
    decreases p, 6
  {
    hide *;
    HeadOf(p, k);
    ExprFacts(p, depth, recDepth);
    Kinds(p);
    ReadIs(p, WithinExpr(p, depth, recDepth), k);
    ReadIs(p, Within(p, depth + 1, recDepth), k);
    if depth >= 64 {
      NoDepth(Yield(p, k), depth, recDepth);
    } else if p.Choice? {
      ReadChoice(p, k, depth, recDepth);
    } else {
      ExprIsChain(Yield(p, k), depth, recDepth);
      DepthLeft(depth);
      StopsTighter(Head(k), EXPR, OR);
      ReadLevel(p, OR, k, depth + 1, recDepth);
    }
  }

  lemma HeadOf(p: Phrase, k: Toks)
    requires Shape(p)
    ensures var h := Head(Yield(p, k));
      && Yield(p, k) != [] && !h.ErrorToken? && h !in {RParen, RBracket, RBrace}
      && (LevelOf(p) != EXPR ==> h != KwIf)
      && (LevelOf(p) == MEMBER ==> h != Bang && h != Oper(Minus))
      && (UNARY <= LevelOf(p) && !NumberFirst(p) ==> !h.Number?)
  {
    YieldHead(p, k);
    hide Yield, Shape, NumberFirst, LevelOf;
  }

  lemma ReadIs(p: Phrase, ok: bool, k: Toks)
    ensures Read(p, ok, k) == if ok then Some((NodeOf(p), k)) else None
  {
    hide NodeOf;
  }

  lemma NoDepth(ts: Toks, depth: nat, recDepth: nat)
    requires depth >= 64
    ensures ParseExpr(ts, depth, recDepth) == None
  {
    hide ParseChain, ParseIf;
  }

  lemma DepthLeft(depth: nat)
    requires depth < 64
    ensures depth + 1 <= MAX_PARSE_DEPTH
  {
  }

  lemma {:induction false} ReadChoice(p: Phrase, k: Toks, depth: nat, recDepth: nat)
    requires Shape(p) && p.Choice? && Stops(Head(k), EXPR) && depth < 64
    ensures ParseExpr(Yield(p, k), depth, recDepth) == Read(p, Within(p, depth + 1, recDepth), k)
    decreases p, 0
  {
    hide *;
    ChoiceFacts(p, k, depth + 1, recDepth);
    var t2 := [KwElse] + Yield(p.els, k);
    var t1 := [KwThen] + Yield(p.thn, t2);
    IfStops(Yield(p.thn, t2), Yield(p.els, k));
    ReadExpr(p.cond, t1, depth + 1, recDepth);
    ReadExpr(p.thn, t2, depth + 1, recDepth);
    ReadExpr(p.els, k, depth + 1, recDepth);
    ReadIs(p.cond, WithinExpr(p.cond, depth + 1, recDepth), t1);
    ReadIs(p.thn, WithinExpr(p.thn, depth + 1, recDepth), t2);
    ReadIs(p.els, WithinExpr(p.els, depth + 1, recDepth), k);
    ReadIs(p, Within(p, depth + 1, recDepth), k);
    ExprIsIf(Yield(p.cond, t1), depth, recDepth);
    ReadsIf(Yield(p.cond, t1), depth + 1, recDepth);
    ReadsThen(NodeOf(p.cond), Yield(p.thn, t2), depth + 1, recDepth);
    ReadsElse(NodeOf(p.cond), NodeOf(p.thn), Yield(p.els, k), depth + 1, recDepth);
  }

  lemma ExprIsIf(ts: Toks, depth: nat, recDepth: nat)
    requires depth < 64
    ensures ParseExpr([KwIf] + ts, depth, recDepth) == ParseIf([KwIf] + ts, depth + 1, recDepth)
  {
    hide ParseIf, ParseChain;
  }

  /** A phrase read by a level at least as loose as its own. */
  lemma {:induction false} ReadLevel(p: Phrase, l: nat, k: Toks, depth: nat, recDepth: nat)
    requires Shape(p) && OR <= l <= LevelOf(p) && Stops(Head(k), l)
    ensures l <= MEMBER
    ensures ParseAt(l, Yield(p, k), depth, recDepth) == Read(p, Within(p, depth, recDepth), k)
    decreases p, 5
  {
    hide *;
    HeadOf(p, k);
    ReadIs(p, Within(p, depth, recDepth), k);
    StopsTighter(Head(k), l, LevelOf(p));
    ReadOwn(p, k, depth, recDepth);
    LiftTo(l, LevelOf(p), Yield(p, k), depth, recDepth);
  }

  /** A phrase read by its own level. */
  lemma {:induction false} ReadOwn(p: Phrase, k: Toks, depth: nat, recDepth: nat)
    requires Shape(p) && LevelOf(p) >= OR && Stops(Head(k), LevelOf(p))
    ensures ParseAt(LevelOf(p), Yield(p, k), depth, recDepth) == Read(p, Within(p, depth, recDepth), k)
    decreases p, 4
  {
    hide *;
    Kinds(p);
    ReadIs(p, Within(p, depth, recDepth), k);
    var l := LevelOf(p);
    if l == MEMBER {
      StopsIs(k);
      ReadMember(p, k, depth, recDepth);
      AtMember(Yield(p, k), depth, recDepth);
      MemberStops(NodeOf(p), k, MemberSteps(p), depth, recDepth);
    } else if l == UNARY {
      ReadUnary(p, k, depth, recDepth);
      AtUnary(Yield(p, k), depth, recDepth);
    } else if l == REL {
      ReadRelation(p, k, depth, recDepth);
      AtRelation(Yield(p, k), depth, recDepth);
    } else {
      OperationFacts(p, k, depth, recDepth);
      StopsTighter(Head(k), l, l + 1);
      ReadChain(p, k, depth, recDepth);
      AtChain(l, Yield(p, k), depth, recDepth);
      ChainStops(l, NodeOf(p), k, Operators(l, p), depth, recDepth);
    }
  }

  /** A chain of operators: the loop arrives at p with its operators counted. */
  lemma {:induction false} ReadChain(p: Phrase, k: Toks, depth: nat, recDepth: nat)
    requires Shape(p) && p.Operation? && LevelOf(p) != REL && LevelOf(p) == OpLevel(p.op) && Stops(Head(k), LevelOf(p) + 1)
    ensures var l := LevelOf(p);
      && (l == OR || l == AND || l == ADD || l == MUL)
      && ParseChain(ChainLevel(l), Yield(p, k), depth, recDepth) ==
           if Within(p, depth, recDepth) then ChainRest(ChainLevel(l), NodeOf(p), k, Operators(l, p), depth, recDepth) else None
    decreases p, 0
  {
    hide *;
    Kinds(p);
    OperationFacts(p, k, depth, recDepth);
    ChainLimit();
    var l := LevelOf(p);
    var k1 := Yield(p.right, k);
    OperStops(p.op, k1);
    HeadOf(p.right, k);
    ReadOperand(l, p.left, [Oper(p.op)] + k1, depth, recDepth);
    ChainStep(ChainLevel(l), NodeOf(p.left), p.op, k1, Operators(l, p.left), depth, recDepth);
    ReadLevel(p.right, l + 1, k, depth, recDepth);
    ReadIs(p.right, Within(p.right, depth, recDepth), k);
    OperandIsTighter(l, k1, depth, recDepth);
  }

  lemma ChainLimit()
    ensures MAX_BINOP_CHAIN == 256 && MAX_MEMBER_CHAIN == 16 && MAX_PARSE_DEPTH == 64
  {
  }

  /** An operator ends its left operand, and belongs to the chain of its level. */
  lemma OperStops(op: Op, k: Toks)
    ensures Head([Oper(op)] + k) == Oper(op)
    ensures Stops(Head([Oper(op)] + k), OpLevel(op) + 1)
    ensures var l := OpLevel(op); l == OR || l == AND || l == ADD || l == MUL || l == REL
    ensures OpLevel(op) != REL ==> InChain(ChainLevel(OpLevel(op)), Oper(op))
  {
  }

  lemma {:induction false} ReadOperand(l: nat, q: Phrase, k: Toks, depth: nat, recDepth: nat)
    requires l == OR || l == AND || l == ADD || l == MUL
    requires Shape(q) && LevelOf(q) >= l && Stops(Head(k), l + 1)
    ensures ParseChain(ChainLevel(l), Yield(q, k), depth, recDepth) ==
      if Within(q, depth, recDepth) then ChainRest(ChainLevel(l), NodeOf(q), k, Operators(l, q), depth, recDepth) else None
    decreases q, 6
  {
    hide *;
    Kinds(q);
    if LevelOf(q) == l {
      OperationFacts(q, k, depth, recDepth);
      ReadChain(q, k, depth, recDepth);
    } else {
      NotInChain(l, q);
      ReadLevel(q, l + 1, k, depth, recDepth);
      ReadIs(q, Within(q, depth, recDepth), k);
      ChainBegins(l, Yield(q, k), depth, recDepth);
    }
  }

  lemma NotInChain(l: nat, q: Phrase)
    requires LevelOf(q) != l
    ensures Operators(l, q) == 0
  {
  }

  lemma {:induction false} ReadRelation(p: Phrase, k: Toks, depth: nat, recDepth: nat)
    requires Shape(p) && LevelOf(p) == REL && Stops(Head(k), REL)
    ensures ParseRelation(Yield(p, k), depth, recDepth) == Read(p, Within(p, depth, recDepth), k)
    decreases p, 1
  {
    hide *;
    Kinds(p);
    ReadIs(p, Within(p, depth, recDepth), k);
    RelationReads(Yield(p, k), depth, recDepth);
    StopsTighter(Head(k), REL, MEMBER);
    StopsTighter(Head(k), REL, ADD);
    StopsIs(k);
    if p.Operation? {
      OperationFacts(p, k, depth, recDepth);
      OperStops(p.op, Yield(p.right, k));
      HeadOf(p.right, k);
      ReadLevel(p.left, ADD, [Oper(p.op)] + Yield(p.right, k), depth, recDepth);
      ReadIs(p.left, Within(p.left, depth, recDepth), [Oper(p.op)] + Yield(p.right, k));
      ReadLevel(p.right, ADD, k, depth, recDepth);
      ReadIs(p.right, Within(p.right, depth, recDepth), k);
      RelationOper(NodeOf(p.left), p.op, Yield(p.right, k), depth, recDepth);
    } else if p.Presence? {
      PresenceFacts(p, k, depth, recDepth);
      RelationStops(KwHas, [p.name] + k);
      ReadLevel(p.obj, ADD, [KwHas] + ([p.name] + k), depth, recDepth);
      ReadIs(p.obj, Within(p.obj, depth, recDepth), [KwHas] + ([p.name] + k));
      RelationName(NodeOf(p.obj), p.name, k, depth, recDepth);
    } else if p.Matching? {
      MatchingFacts(p, k, depth, recDepth);
      RelationStops(KwLike, [p.t] + k);
      ReadLevel(p.obj, ADD, [KwLike] + ([p.t] + k), depth, recDepth);
      ReadIs(p.obj, Within(p.obj, depth, recDepth), [KwLike] + ([p.t] + k));
      RelationPattern(NodeOf(p.obj), p.t, k, depth, recDepth);
    } else {
      ReadTyping(p, k, depth, recDepth);
    }
  }

  lemma RelationStops(t: Token, k: Toks)
    requires t == KwHas || t == KwLike || t == KwIs
    ensures Stops(Head([t] + k), ADD)
  {
  }

  lemma {:induction false} ReadTyping(p: Phrase, k: Toks, depth: nat, recDepth: nat)
    requires Shape(p) && p.Typing? && Stops(Head(k), REL)
    ensures ParseRelation(Yield(p, k), depth, recDepth) == Read(p, Within(p, depth, recDepth), k)
    decreases p, 0
  {
    hide *;
    Kinds(p);
    TypingFacts(p, k, depth, recDepth);
    ReadIs(p, Within(p, depth, recDepth), k);
    RelationReads(Yield(p, k), depth, recDepth);
    StopsTighter(Head(k), REL, ADD);
    var k1 := YieldIn(p.target, k);
    var k2 := [KwIs] + PartsTokens(p.parts, k1);
    RelationStops(KwIs, PartsTokens(p.parts, k1));
    ReadLevel(p.obj, ADD, k2, depth, recDepth);
    ReadIs(p.obj, Within(p.obj, depth, recDepth), k2);
    TargetFacts(p.target, k);
    RelationTyping(NodeOf(p.obj), p.parts, k1, depth, recDepth);
    if p.target.Some? {
      var e := p.target.value;
      HeadOf(e, k);
      TakeOne(Oper(In), Yield(e, k));
      ReadLevel(e, ADD, k, depth, recDepth);
      ReadIs(e, Within(e, depth, recDepth), k);
    }
  }

  lemma TargetFacts(target: Option<Phrase>, k: Toks)
    requires Stops(Head(k), REL)
    ensures Stops(Head(YieldIn(target, k)), MEMBER)
    ensures Head(YieldIn(target, k)) == Oper(In) <==> target.Some?
    ensures target.None? ==> YieldIn(target, k) == k && OptionOf(target) == None
    ensures target.Some? ==>
      YieldIn(target, k) == [Oper(In)] + Yield(target.value, k) && OptionOf(target) == Some(NodeOf(target.value))
  {
    hide Yield, NodeOf;
  }

  lemma {:induction false} ReadUnary(p: Phrase, k: Toks, depth: nat, recDepth: nat)
    requires Shape(p) && LevelOf(p) == UNARY && Stops(Head(k), UNARY)
    ensures ParseUnary(Yield(p, k), depth, recDepth) == Read(p, Within(p, depth, recDepth), k)
    decreases p, 1
  {
    hide *;
    Kinds(p);
    ChainLimit();
    ReadIs(p, Within(p, depth, recDepth), k);
    if p.NegDigits? {
      StopsTighter(Head(k), UNARY, MEMBER);
      StopsIs(k);
      NegDigitsFacts(p.digits, k, depth, recDepth);
      UnaryDigits(p.digits, k, depth, recDepth);
    } else {
      UnaryFacts(p, k, depth, recDepth);
      HeadOf(p.e, k);
      ReadLevel(p.e, UNARY, k, depth + 1, recDepth);
      ReadIs(p.e, Within(p.e, depth + 1, recDepth), k);
      AtUnary(Yield(p.e, k), depth + 1, recDepth);
      if p.Negation? {
        OperandBegins(Yield(p.e, k));
        MinusBefore(Yield(p.e, k), depth, recDepth);
      } else {
        BangBefore(Yield(p.e, k), depth, recDepth);
      }
    }
  }

  lemma OperandBegins(ts: Toks)
    requires ts != [] && !Head(ts).ErrorToken? && !Head(ts).Number?
    ensures OperandHead(ts)
  {
  }

  lemma BangBefore(ts: Toks, depth: nat, recDepth: nat)
    requires !Head(ts).ErrorToken?
    ensures ParseUnary([Bang] + ts, depth, recDepth) ==
      if depth + 1 > MAX_PARSE_DEPTH then None
      else
        var r := ParseUnary(ts, depth + 1, recDepth);
        if r.None? then None else Some((Not(r.value.0), r.value.1))
  {
    hide ParseUnary;
    assert ([Bang] + ts)[1..] == ts;
    UnaryBang([Bang] + ts, depth, recDepth);
  }

  lemma UnaryDigits(digits: DigitString, k: Toks, depth: nat, recDepth: nat)
    requires !Head(k).ErrorToken?
    ensures ParseUnary([Oper(Minus)] + ([Number(digits)] + k), depth, recDepth) ==
      if DecValue(digits) <= 0x8000_0000_0000_0000 then Some((LongLit(-(DecValue(digits) as int)), k)) else None
  {
    TakeOne(Oper(Minus), [Number(digits)] + k);
    TakeOne(Number(digits), k);
    hide ParseMember, DecValue, Advance;
  }

  /** A member chain: the loop arrives at p with its steps counted. */
  lemma {:induction false} ReadMember(p: Phrase, k: Toks, depth: nat, recDepth: nat)
    requires Shape(p) && LevelOf(p) == MEMBER && !Head(k).ErrorToken? && Head(k) != LParen
    ensures ParseMember(Yield(p, k), depth, recDepth) ==
      if Within(p, depth, recDepth) then MemberRest(NodeOf(p), k, MemberSteps(p), depth, recDepth) else None
    decreases p, 3
  {
    hide *;
    if IsStep(p) {
      StepFacts(p, k, depth, recDepth);
      ChainLimit();
      var k1 := StepTokens(p, k);
      StepBegins(p, k);
      ReadMember(p.obj, k1, depth, recDepth);
      NextStep(NodeOf(p.obj), k1, MemberSteps(p.obj), depth, recDepth);
      ReadStep(p, k, depth, recDepth);
    } else {
      NoSteps(p);
      PrimaryMember(Yield(p, k), depth, recDepth);
      ReadPrimary(p, k, depth, recDepth);
      ReadIs(p, Within(p, depth, recDepth), k);
    }
  }

  lemma StepBegins(p: Phrase, k: Toks)
    requires IsStep(p)
    ensures StepHead(StepTokens(p, k)) && StepTokens(p, k) != []
    ensures !Head(StepTokens(p, k)).ErrorToken? && Head(StepTokens(p, k)) != LParen
  {
  }

  lemma {:induction false} ReadStep(p: Phrase, k: Toks, depth: nat, recDepth: nat)
    requires IsStep(p) && Shape(p) && !Head(k).ErrorToken? && Head(k) != LParen && StepTokens(p, k) != []
    ensures ParseStep(NodeOf(p.obj), StepTokens(p, k), depth, recDepth) ==
      if p.Invoke? && p.arg.Some? && !WithinExpr(p.arg.value, depth, recDepth) then None else Some((NodeOf(p), k))
    decreases p, 2
  {
    hide *;
    StepFacts(p, k, depth, recDepth);
    StepIs(p, k);
    if p.Access? {
      StepAccess(NodeOf(p.obj), p.name, k, depth, recDepth);
    } else if p.Index? {
      StepIndex(NodeOf(p.obj), p.key, k, depth, recDepth);
    } else {
      var K := [RParen] + k;
      CallTokensHead(YieldOption(p.arg, K));
      StepAccess(NodeOf(p.obj), p.name, [LParen] + YieldOption(p.arg, K), depth, recDepth);
      if p.arg.None? {
        CallEmpty(NodeOf(p.obj), NameOf(p.name), k, depth, recDepth);
      } else {
        CloserStops(k);
        ReadExpr(p.arg.value, K, depth, recDepth);
        HeadOf(p.arg.value, K);
        ReadIs(p.arg.value, WithinExpr(p.arg.value, depth, recDepth), K);
        CallArgument(NodeOf(p.obj), NameOf(p.name), Yield(p.arg.value, K), k, depth, recDepth);
      }
    }
  }

  lemma CallTokensHead(k: Toks)
    ensures Head([LParen] + k) == LParen && !Head([LParen] + k).ErrorToken?
  {
  }

  lemma CloserStops(k: Toks)
    ensures Stops(Head([RParen] + k), EXPR) && Stops(Head([RBracket] + k), EXPR) && Stops(Head([RBrace] + k), EXPR)
    ensures Stops(Head([Comma] + k), EXPR)
  {
  }

  lemma StepIs(p: Phrase, k: Toks)
    requires IsStep(p)
    ensures p.Access? ==> StepTokens(p, k) == [Dot] + ([p.name] + k)
    ensures p.Index? ==> StepTokens(p, k) == [LBracket] + ([p.key] + ([RBracket] + k))
    ensures p.Invoke? ==>
      && StepTokens(p, k) == [Dot] + ([p.name] + ([LParen] + YieldOption(p.arg, [RParen] + k)))
      && (p.arg.None? ==> YieldOption(p.arg, [RParen] + k) == [RParen] + k && OptionOf(p.arg) == None)
      && (p.arg.Some? ==> YieldOption(p.arg, [RParen] + k) == Yield(p.arg.value, [RParen] + k) && OptionOf(p.arg) == Some(NodeOf(p.arg.value)))
  {
    hide Yield, NodeOf;
  }

  lemma {:induction false} ReadPrimary(p: Phrase, k: Toks, depth: nat, recDepth: nat)
    requires Shape(p) && LevelOf(p) == MEMBER && !IsStep(p) && !Head(k).ErrorToken?
    ensures ParsePrimary(Yield(p, k), depth, recDepth) == Read(p, Within(p, depth, recDepth), k)
    decreases p, 2
  {
    hide *;
    Kinds(p);
    ReadIs(p, Within(p, depth, recDepth), k);
    if IsLeaf(p) {
      LeafFacts(p, k, depth, recDepth);
      ReadLeaf(p, k, depth, recDepth);
    } else if p.Extension? {
      ExtensionFacts(p, k, depth, recDepth);
      ReadExtensionToken(p.kind, p.t, k, depth, recDepth);
    } else if p.Entity? {
      EntityFacts(p, k, depth, recDepth);
      ReadEntityPhrase(p.parts, p.t, k, depth, recDepth);
    } else if p.Parens? {
      ParensFacts(p, k, depth, recDepth);
      CloserStops(k);
      ReadExpr(p.e, [RParen] + k, depth, recDepth);
      ReadIs(p.e, WithinExpr(p.e, depth, recDepth), [RParen] + k);
      PrimaryParen(Yield(p.e, [RParen] + k), depth, recDepth);
      ClosedBy(ParseExpr(Yield(p.e, [RParen] + k), depth, recDepth), RParen, k);
    } else if p.Elements? {
      ReadElements(p, k, depth, recDepth);
    } else {
      ReadFieldsPhrase(p, k, depth, recDepth);
    }
  }

  lemma ClosedBy(r: Option<(Node, Toks)>, t: Token, k: Toks)
    requires !Head(k).ErrorToken? && (r.Some? ==> r.value.1 == [t] + k)
    ensures Closed(r, t) == if r.None? then None else Some((r.value.0, k))
  {
    TakeOne(t, k);
  }

  // ---- Sets ----

  lemma {:induction false} ReadElements(p: Phrase, k: Toks, depth: nat, recDepth: nat)
    requires Shape(p) && p.Elements? && !Head(k).ErrorToken?
    ensures ParsePrimary(Yield(p, k), depth, recDepth) == Read(p, Within(p, depth, recDepth), k)
    decreases p, 1
  {
    hide *;
    var elts, K := p.elts, [RBracket] + k;
    ElementsFacts(p, k, depth, recDepth);
    EltsFacts(elts, K, depth, recDepth);
    ReadIs(p, Within(p, depth, recDepth), k);
    if elts == [] {
      SetEmpty(k, depth, recDepth);
    } else {
      var k1 := YieldElts(elts[1..], K);
      EltsStop(elts[1..], k);
      ReadExpr(elts[0], k1, depth, recDepth);
      ReadIs(elts[0], WithinExpr(elts[0], depth, recDepth), k1);
      SetFirst(Yield(elts[0], k1), depth, recDepth);
      ReadElts([NodeOf(elts[0])], elts[1..], k, depth, recDepth);
      SetEnds([NodeOf(elts[0])], k1, k, depth, recDepth);
    }
  }

  lemma SetEmpty(k: Toks, depth: nat, recDepth: nat)
    requires !Head(k).ErrorToken?
    ensures ParsePrimary([LBracket] + ([RBracket] + k), depth, recDepth) == Some((SetLit([]), k))
  {
    PrimaryBracket([LBracket] + ([RBracket] + k), depth, recDepth);
    TakeOne(LBracket, [RBracket] + k);
    TakeOne(RBracket, k);
    hide ParsePrimary, ParseExpr, SetClose, Advance;
  }

  lemma SetFirst(ts: Toks, depth: nat, recDepth: nat)
    requires !Head(ts).ErrorToken? && Head(ts) != RBracket
    ensures ParsePrimary([LBracket] + ts, depth, recDepth) ==
      var r := ParseExpr(ts, depth, recDepth);
      if r.None? then None else SetClose([r.value.0], r.value.1, depth, recDepth)
  {
    PrimaryBracket([LBracket] + ts, depth, recDepth);
    TakeOne(LBracket, ts);
    hide ParsePrimary, ParseExpr, SetClose, Advance;
  }

  lemma SetEnds(elts: seq<Node>, ts: Toks, k: Toks, depth: nat, recDepth: nat)
    requires !Head(k).ErrorToken?
    ensures SetRest(elts, ts, depth, recDepth).None? ==> SetClose(elts, ts, depth, recDepth) == None
    ensures forall all :: SetRest(elts, ts, depth, recDepth) == Some((all, [RBracket] + k)) ==>
      SetClose(elts, ts, depth, recDepth) == Some((SetLit(all), k))
  {
    TakeOne(RBracket, k);
    hide SetRest, Expect;
  }

  lemma EltsStop(elts: seq<Phrase>, k: Toks)
    ensures Stops(Head(YieldElts(elts, [RBracket] + k)), EXPR)
  {
    hide Yield;
  }

  lemma {:induction false} ReadElts(done: seq<Node>, elts: seq<Phrase>, k: Toks, depth: nat, recDepth: nat)
    requires |done| <= 256 && forall i :: 0 <= i < |elts| ==> Shape(elts[i])
    ensures SetRest(done, YieldElts(elts, [RBracket] + k), depth, recDepth) ==
      if |done| + |elts| <= 256 && WithinElts(elts, depth, recDepth) then Some((done + NodesOf(elts), [RBracket] + k)) else None
    decreases elts, 0
  {
    hide *;
    var K := [RBracket] + k;
    EltsFacts(elts, K, depth, recDepth);
    if elts == [] {
      EltsEnd(done, k);
      assert done + [] == done;
    } else {
      var k1 := YieldElts(elts[1..], K);
      EltsStop(elts[1..], k);
      ReadExpr(elts[0], k1, depth, recDepth);
      ReadIs(elts[0], WithinExpr(elts[0], depth, recDepth), k1);
      if |done| == 256 {
        SetFull(done, Yield(elts[0], k1), depth, recDepth);
      } else {
        SetRoom(done);
        EltStep(done, Yield(elts[0], k1), depth, recDepth);
        ReadElts(done + [NodeOf(elts[0])], elts[1..], k, depth, recDepth);
        assert done + [NodeOf(elts[0])] + NodesOf(elts[1..]) == done + ([NodeOf(elts[0])] + NodesOf(elts[1..]));
      }
    }
  }

  lemma SetRoom(done: seq<Node>)
    ensures |done| < 256 <==> |done| + 1 <= MAX_SET_ELEMENTS
  {
  }

  lemma SetFull(done: seq<Node>, k: Toks, depth: nat, recDepth: nat)
    requires |done| == 256
    ensures SetRest(done, [Comma] + k, depth, recDepth) == None
  {
    hide ParseExpr;
  }

  // ---- Records ----

  /** What follows the last entry. */
  function Tail(comma: bool, k: Toks): Toks {
    (if comma then [Comma] else []) + ([RBrace] + k)
  }

  lemma {:induction false} ReadFieldsPhrase(p: Phrase, k: Toks, depth: nat, recDepth: nat)
    requires Shape(p) && p.Fields? && !Head(k).ErrorToken?
    ensures ParsePrimary(Yield(p, k), depth, recDepth) == Read(p, Within(p, depth, recDepth), k)
    decreases p, 1
  {
    hide *;
    var fields := p.fields;
    FieldsFacts(p, k, depth, recDepth);
    TailIs(p.comma, k);
    EntriesFacts(fields, Tail(p.comma, k), depth, recDepth + 1);
    ReadIs(p, Within(p, depth, recDepth), k);
    RecordLimits(recDepth, []);
    RecordPrimary(YieldFields(fields, Tail(p.comma, k)), depth, recDepth);
    if fields == [] {
      NoFields();
      EmptyRecord(k, depth, recDepth);
    } else {
      var ts := YieldFields(fields, Tail(p.comma, k));
      FieldsBegin(fields, Tail(p.comma, k));
      RecordOpen(ts, depth, recDepth);
      ReadFields([], fields, p.comma, k, depth, recDepth + 1);
      FreshFromNone(fields);
      assert [] + EntriesOf(fields) == EntriesOf(fields);
      RecordEnds(ts, k, depth, recDepth + 1);
    }
  }

  lemma NoFields()
    ensures DistinctNames([])
  {
  }

  lemma TailIs(comma: bool, k: Toks)
    ensures Tail(comma, k) == (if comma then [Comma] else []) + ([RBrace] + k)
    ensures Tail(false, k) == [RBrace] + k && Tail(true, k) == [Comma] + ([RBrace] + k)
    ensures Stops(Head(Tail(comma, k)), EXPR)
  {
  }

  lemma RecordLimits(recDepth: nat, done: seq<Entry>)
    ensures recDepth < 16 <==> recDepth + 1 <= MAX_RECORD_DEPTH
    ensures |done| < 64 <==> |done| + 1 <= MAX_RECORD_ENTRIES
  {
  }

  lemma RecordPrimary(ts: Toks, depth: nat, recDepth: nat)
    ensures ParsePrimary([LBrace] + ts, depth, recDepth) == ParseRecord([LBrace] + ts, depth, recDepth)
  {
    PrimaryBracket([LBrace] + ts, depth, recDepth);
    hide ParsePrimary, ParseRecord, ParseSet;
  }

  lemma FieldsBegin(fields: seq<Field>, k: Toks)
    requires fields != [] && ShapeField(fields[0])
    ensures !Head(YieldFields(fields, k)).ErrorToken? && Head(YieldFields(fields, k)) != RBrace
  {
    hide Yield, Shape;
  }

  /** The names of the fields are new and different from each other. */
  predicate Fresh(done: seq<Entry>, fields: seq<Field>) {
    DistinctNames(fields) && forall i :: 0 <= i < |fields| ==> !HasKey(done, NameOf(fields[i].key))
  }

  lemma FreshFromNone(fields: seq<Field>)
    ensures Fresh([], fields) <==> DistinctNames(fields)
  {
  }

  lemma FreshStep(done: seq<Entry>, fields: seq<Field>, n: Node)
    requires fields != []
    ensures Fresh(done, fields) <==>
      !HasKey(done, NameOf(fields[0].key)) && Fresh(done + [Entry(NameOf(fields[0].key), n)], fields[1..])
  {
    hide NameOf;
    var e := Entry(NameOf(fields[0].key), n);
    var more, rest := done + [e], fields[1..];
    assert more[|done|] == e && forall i :: 0 <= i < |done| ==> more[i] == done[i];
    assert forall name :: HasKey(more, name) <==> HasKey(done, name) || name == e.key;
    if Fresh(done, fields) {
      assert forall i :: 0 <= i < |rest| ==> rest[i] == fields[i + 1];
    }
    if !HasKey(done, e.key) && Fresh(more, rest) {
      forall i, j | 0 <= i < j < |fields| ensures NameOf(fields[i].key) != NameOf(fields[j].key) {
        assert fields[j] == rest[j - 1];
        if i > 0 {
          assert fields[i] == rest[i - 1];
        } else {
          assert HasKey(more, e.key);
        }
      }
      forall i | 0 <= i < |fields| ensures !HasKey(done, NameOf(fields[i].key)) {
        assert i > 0 ==> fields[i] == rest[i - 1];
      }
    }
  }

  lemma FreshNone(done: seq<Entry>)
    ensures Fresh(done, [])
  {
  }

  lemma {:induction false} ReadFields(done: seq<Entry>, fields: seq<Field>, comma: bool, k: Toks, depth: nat, recDepth: nat)
    requires fields != [] && |done| <= 64 && forall i :: 0 <= i < |fields| ==> ShapeField(fields[i])
    ensures ParseEntries(done, YieldFields(fields, Tail(comma, k)), depth, recDepth) ==
      if |done| + |fields| <= 64 && Fresh(done, fields) && WithinFields(fields, depth, recDepth)
      then Some((done + EntriesOf(fields), [RBrace] + k)) else None
    decreases fields, 1
  {
    hide *;
    var f, K := fields[0], Tail(comma, k);
    var e := Entry(NameOf(f.key), NodeOf(f.value));
    EntriesFacts(fields, K, depth, recDepth);
    EntriesFacts(fields[1..], K, depth, recDepth);
    FreshStep(done, fields, NodeOf(f.value));
    FreshNone(done + [e]);
    ReadFirst(done, fields, comma, k, depth, recDepth);
    if |fields| == 1 {
      assert done + ([e] + []) == done + [e];
    } else if |done| < 64 {
      ReadFields(done + [e], fields[1..], comma, k, depth, recDepth);
      assert done + [e] + EntriesOf(fields[1..]) == done + ([e] + EntriesOf(fields[1..]));
    }
  }

  /** The first of the fields, and how the loop goes on behind it. */
  lemma {:induction false} ReadFirst(done: seq<Entry>, fields: seq<Field>, comma: bool, k: Toks, depth: nat, recDepth: nat)
    requires fields != [] && |done| <= 64 && forall i :: 0 <= i < |fields| ==> ShapeField(fields[i])
    ensures var f, K := fields[0], Tail(comma, k);
      var all := done + [Entry(NameOf(f.key), NodeOf(f.value))];
      ParseEntries(done, YieldFields(fields, K), depth, recDepth) ==
      if |done| >= 64 || HasKey(done, NameOf(f.key)) || !WithinExpr(f.value, depth, recDepth) then None
      else if |fields| == 1 then Some((all, [RBrace] + k))
      else ParseEntries(all, YieldFields(fields[1..], K), depth, recDepth)
    decreases fields, 0
  {
    hide *;
    var f, K := fields[0], Tail(comma, k);
    EntriesFacts(fields, K, depth, recDepth);
    TailIs(comma, k);
    var k1 := if |fields| == 1 then K else [Comma] + YieldFields(fields[1..], K);
    CloserStops(YieldFields(fields[1..], K));
    var e := Entry(NameOf(f.key), NodeOf(f.value));
    ReadField(done, f, k1, depth, recDepth);
    var ts := [f.key] + ([Colon] + Yield(f.value, k1));
    if |done| >= 64 || HasKey(done, NameOf(f.key)) || !WithinExpr(f.value, depth, recDepth) {
      NoEntry(done, ts, depth, recDepth);
    } else if |fields| == 1 {
      LastEntry(done, ts, e, comma, k, depth, recDepth);
    } else {
      FieldsBegin(fields[1..], K);
      MoreEntries(done, ts, e, YieldFields(fields[1..], K), depth, recDepth);
    }
  }

  lemma FieldIs(f: Field)
    ensures ShapeField(f) <==> (IsBare(f.key) || IsPlain(f.key)) && Shape(f.value)
  {
    hide Shape;
  }

  lemma NoEntry(done: seq<Entry>, ts: Toks, depth: nat, recDepth: nat)
    requires ParseEntry(done, ts, depth, recDepth).None?
    ensures ParseEntries(done, ts, depth, recDepth).None?
  {
    hide ParseEntry;
  }

  lemma LastEntry(done: seq<Entry>, ts: Toks, e: Entry, comma: bool, k: Toks, depth: nat, recDepth: nat)
    requires ParseEntry(done, ts, depth, recDepth) == Some((e, Tail(comma, k)))
    ensures ParseEntries(done, ts, depth, recDepth) == Some((done + [e], [RBrace] + k))
  {
    hide ParseEntry;
    TakeOne(Comma, [RBrace] + k);
    TailIs(comma, k);
    hide Advance, Tail;
  }

  lemma MoreEntries(done: seq<Entry>, ts: Toks, e: Entry, k: Toks, depth: nat, recDepth: nat)
    requires ParseEntry(done, ts, depth, recDepth) == Some((e, [Comma] + k))
    requires !Head(k).ErrorToken? && Head(k) != RBrace
    ensures ParseEntries(done, ts, depth, recDepth) == ParseEntries(done + [e], k, depth, recDepth)
  {
    hide ParseEntry;
    TakeOne(Comma, k);
    hide Advance;
  }

  lemma {:induction false} ReadField(done: seq<Entry>, f: Field, k: Toks, depth: nat, recDepth: nat)
    requires ShapeField(f) && Stops(Head(k), EXPR)
    ensures ParseEntry(done, [f.key] + ([Colon] + Yield(f.value, k)), depth, recDepth) ==
      if |done| < 64 && !HasKey(done, NameOf(f.key)) && WithinExpr(f.value, depth, recDepth)
      then Some((Entry(NameOf(f.key), NodeOf(f.value)), k)) else None
    decreases f, 0
  {
    hide *;
    FieldIs(f);
    ReadExpr(f.value, k, depth, recDepth);
    ReadIs(f.value, WithinExpr(f.value, depth, recDepth), k);
    EntryToken(done, f.key, Yield(f.value, k), depth, recDepth);
  }

  lemma EntryToken(done: seq<Entry>, key: Token, k: Toks, depth: nat, recDepth: nat)
    requires (IsBare(key) || IsPlain(key)) && !Head(k).ErrorToken?
    ensures ParseEntry(done, [key] + ([Colon] + k), depth, recDepth) ==
      if |done| >= 64 || HasKey(done, NameOf(key)) then None
      else
        var r := ParseExpr(k, depth, recDepth);
        if r.None? then None else Some((Entry(NameOf(key), r.value.0), r.value.1))
  {
    hide *;
    NotErrors(key, [Colon] + k);
    NotErrors(key, k);
    TakeOne(key, [Colon] + k);
    TakeOne(Colon, k);
    EntryParts(done, [key] + ([Colon] + k), [Colon] + k, key, k, depth, recDepth);
  }

  lemma EntryParts(done: seq<Entry>, ts: Toks, t1: Toks, key: Token, k: Toks, depth: nat, recDepth: nat)
    requires ts != [] && Head(ts) == key && (IsBare(key) || IsPlain(key)) && Advance(ts) == Some(t1) && Expect(t1, Colon) == Some(k)
    ensures ParseEntry(done, ts, depth, recDepth) ==
      if |done| >= 64 || HasKey(done, NameOf(key)) then None
      else
        var r := ParseExpr(k, depth, recDepth);
        if r.None? then None else Some((Entry(NameOf(key), r.value.0), r.value.1))
  {
    hide ParseExpr, HasKey, Advance, Expect, ExtName;
  }
}
