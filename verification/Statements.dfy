/**
 * The grammar of policies, declaratively, and that the policy parser reads every statement of it exactly
 * when it keeps the limits.
 */
module Statements {
  import opened Common
  import opened Syntax
  import opened Grammar
  import opened PolicyGrammar
  import opened Printer
  import opened Phrases
  import opened PhraseReading
  import PolicyRoundTrip
  import RoundTrip

  /** `@key`, or `@key("value")`. */
  datatype Note = Note(key: Token, value: Option<Token>)

  datatype Constraint =
    | Anything
    | Equal(target: Phrase)
    | Inside(target: Phrase)
    | Typed(parts: seq<string>)
    | TypedInside(parts: seq<string>, target: Phrase)

  datatype Clause = Clause(isUnless: bool, e: Phrase)

  datatype Statement = Statement(notes: seq<Note>, isForbid: bool,
                                 principal: Constraint, action: Constraint, resource: Constraint, clauses: seq<Clause>)

  // ---- The grammar ----

  predicate ShapeNote(a: Note) {
    IsBare(a.key) && (a.value.Some? ==> IsPlain(a.value.value))
  }

  /** An entity reference. */
  predicate IsReference(p: Phrase) {
    p.Entity? && Shape(p)
  }

  /** A set of entity references, each of them in any parentheses. */
  predicate IsReferenceSet(p: Phrase) {
    p.Elements? && Shape(p) && forall i :: 0 <= i < |p.elts| ==> NodeOf(p.elts[i]).EntityRef?
  }

  predicate ShapeConstraint(v: Var, s: Constraint) {
    match s
    case Anything => true
    case Equal(target) => IsReference(target)
    case Inside(target) => IsReference(target) || (v == Action && IsReferenceSet(target))
    case Typed(parts) => v != Action && parts != []
    case TypedInside(parts, target) => v != Action && parts != [] && IsReference(target)
  }

  predicate ShapeStatement(s: Statement) {
    && (forall i :: 0 <= i < |s.notes| ==> ShapeNote(s.notes[i]))
    && (forall i :: 0 <= i < |s.clauses| ==> Shape(s.clauses[i].e))
    && ShapeConstraint(Principal, s.principal) && ShapeConstraint(Action, s.action) && ShapeConstraint(Resource, s.resource)
  }

  // ---- The limits ----

  predicate WithinConstraint(s: Constraint) {
    match s
    case Anything => true
    case Equal(target) => Within(target, 0, 0)
    case Inside(target) => Within(target, 0, 0)
    case Typed(parts) => |parts| <= 16
    case TypedInside(parts, target) => |parts| <= 16 && Within(target, 0, 0)
  }

  predicate DistinctKeys(notes: seq<Note>) {
    forall i, j :: 0 <= i < j < |notes| ==> NameOf(notes[i].key) != NameOf(notes[j].key)
  }

  predicate WithinClauses(clauses: seq<Clause>) {
    forall i :: 0 <= i < |clauses| ==> WithinExpr(clauses[i].e, 0, 0)
  }

  predicate WithinStatement(s: Statement) {
    && |s.notes| <= 16 && DistinctKeys(s.notes)
    && WithinConstraint(s.principal) && WithinConstraint(s.action) && WithinConstraint(s.resource)
    && |s.clauses| <= 16 && WithinClauses(s.clauses)
  }

  // ---- What statements look like ----

  function YieldNote(a: Note, k: Toks): Toks {
    [At] + ([a.key] + (if a.value.None? then k else [LParen] + ([a.value.value] + ([RParen] + k))))
  }

  function YieldNotes(notes: seq<Note>, k: Toks): Toks {
    if notes == [] then k else YieldNote(notes[0], YieldNotes(notes[1..], k))
  }

  function YieldConstraint(s: Constraint, k: Toks): Toks {
    match s
    case Anything => k
    case Equal(target) => [Oper(Eq)] + Yield(target, k)
    case Inside(target) => [Oper(In)] + Yield(target, k)
    case Typed(parts) => [KwIs] + PartsTokens(parts, k)
    case TypedInside(parts, target) => [KwIs] + PartsTokens(parts, [Oper(In)] + Yield(target, k))
  }

  function YieldScope(v: Var, s: Constraint, k: Toks): Toks {
    [KwVar(v)] + YieldConstraint(s, k)
  }

  function YieldScopes(s: Statement, k: Toks): Toks {
    [LParen] + YieldScope(Principal, s.principal,
    [Comma] + YieldScope(Action, s.action, [Comma] + YieldScope(Resource, s.resource, [RParen] + k)))
  }

  function YieldClause(c: Clause, k: Toks): Toks {
    [if c.isUnless then KwUnless else KwWhen] + ([LBrace] + Yield(c.e, [RBrace] + k))
  }

  function YieldClauses(clauses: seq<Clause>, k: Toks): Toks {
    if clauses == [] then k else YieldClause(clauses[0], YieldClauses(clauses[1..], k))
  }

  function YieldBody(s: Statement, k: Toks): Toks {
    [if s.isForbid then KwForbid else KwPermit] + YieldScopes(s, YieldClauses(s.clauses, [Semicolon] + k))
  }

  function YieldStatement(s: Statement, k: Toks): Toks {
    YieldNotes(s.notes, YieldBody(s, k))
  }

  function YieldStatements(ss: seq<Statement>): Toks {
    if ss == [] then [] else YieldStatement(ss[0], YieldStatements(ss[1..]))
  }

  // ---- What they mean ----

  function AnnotationOf(a: Note): Annotation {
    Annotation(NameOf(a.key), if a.value.None? then "" else NameOf(a.value.value))
  }

  function AnnotationsOf(notes: seq<Note>): (r: seq<Annotation>)
    ensures |r| == |notes|
  {
    if notes == [] then [] else [AnnotationOf(notes[0])] + AnnotationsOf(notes[1..])
  }

  lemma {:induction false} AnnotationsAt(notes: seq<Note>)
    ensures forall i :: 0 <= i < |notes| ==> AnnotationsOf(notes)[i] == AnnotationOf(notes[i])
    decreases |notes|
  {
    hide AnnotationOf;
    if notes != [] {
      var rest := notes[1..];
      AnnotationsAt(rest);
      assert AnnotationsOf(notes) == [AnnotationOf(notes[0])] + AnnotationsOf(rest);
      hide AnnotationsOf;
      forall i | 0 <= i < |notes| ensures AnnotationsOf(notes)[i] == AnnotationOf(notes[i]) {
        assert i > 0 ==> notes[i] == rest[i - 1] && AnnotationsOf(notes)[i] == AnnotationsOf(rest)[i - 1];
      }
    }
  }

  function ScopeOf(s: Constraint): Scope {
    match s
    case Anything => AnyEntity
    case Equal(target) => EqTo(NodeOf(target))
    case Inside(target) => InTo(NodeOf(target))
    case Typed(parts) => IsType(Joined(parts))
    case TypedInside(parts, target) => IsTypeIn(Joined(parts), NodeOf(target))
  }

  function ConditionOf(c: Clause): Condition {
    Condition(c.isUnless, NodeOf(c.e))
  }

  function ConditionsOf(clauses: seq<Clause>): seq<Condition> {
    if clauses == [] then [] else [ConditionOf(clauses[0])] + ConditionsOf(clauses[1..])
  }

  function PolicyOf(s: Statement): Policy {
    Policy(s.isForbid, AnnotationsOf(s.notes), ScopeOf(s.principal), ScopeOf(s.action), ScopeOf(s.resource), ConditionsOf(s.clauses))
  }

  function PoliciesOf(ss: seq<Statement>): seq<Policy> {
    if ss == [] then [] else [PolicyOf(ss[0])] + PoliciesOf(ss[1..])
  }

  // ---- Reading scopes ----

  /** An entity reference is read alike as a target and as an expression. */
  lemma TargetIsPrimary(ts: Toks)
    ensures ParseTarget(ts) == if Head(ts).Ident? then ParsePrimary(ts, 0, 0) else None
  {
    hide ParseEntityRef, ParseExtension, ParseParenthesized, ParseSet, ParseRecord;
  }

  lemma ReadReference(p: Phrase, k: Toks)
    requires IsReference(p) && !Head(k).ErrorToken?
    ensures ParseTarget(Yield(p, k)) == Read(p, Within(p, 0, 0), k)
    ensures Head(Yield(p, k)).Ident? && !Head(Yield(p, k)).ErrorToken?
  {
    ReferenceFacts(p, k);
    hide *;
    TargetIsPrimary(Yield(p, k));
    ReadPrimary(p, k, 0, 0);
  }

  lemma ReferenceFacts(p: Phrase, k: Toks)
    requires IsReference(p)
    ensures Shape(p) && LevelOf(p) == MEMBER && !IsStep(p) && Head(Yield(p, k)).Ident?
  {
    EntityFacts(p, k, 0, 0);
    PartsBegin(p.parts, [ColonColon] + ([p.t] + k));
    hide PartsTokens;
  }

  lemma SetIsPrimary(ts: Toks)
    requires Head(ts) == LBracket
    ensures ParseSet(ts, 0, 0) == ParsePrimary(ts, 0, 0)
  {
    RoundTrip.PrimaryBracket(ts, 0, 0);
    hide ParseSet, ParsePrimary;
  }

  lemma SetFacts(p: Phrase, k: Toks)
    requires IsReferenceSet(p)
    ensures Shape(p) && LevelOf(p) == MEMBER && !IsStep(p) && Head(Yield(p, k)) == LBracket && NodeOf(p) == SetLit(NodesOf(p.elts))
    ensures forall i :: 0 <= i < |p.elts| ==> NodesOf(p.elts)[i].EntityRef?
  {
    ElementsFacts(p, k, 0, 0);
    NodesAt(p.elts);
    hide Shape, NodeOf, NodesOf;
  }

  lemma {:induction false} NodesAt(elts: seq<Phrase>)
    ensures forall i :: 0 <= i < |elts| ==> NodesOf(elts)[i] == NodeOf(elts[i])
    decreases |elts|
  {
    if elts != [] {
      EltsFacts(elts, [], 0, 0);
      NodesAt(elts[1..]);
      hide NodeOf, NodesOf;
      assert forall i :: 1 <= i < |elts| ==> NodesOf(elts)[i] == NodesOf(elts[1..])[i - 1];
    }
  }

  lemma ReadInside(v: Var, p: Phrase, k: Toks)
    requires IsReference(p) || (v == Action && IsReferenceSet(p))
    requires !Head(k).ErrorToken?
    ensures ParseInTarget(v, Yield(p, k)) == Read(p, Within(p, 0, 0), k)
    ensures !Head(Yield(p, k)).ErrorToken?
  {
    hide IsReference, IsReferenceSet, Shape, Within, NodeOf, NodesOf, Yield, LevelOf, IsStep, ParseTarget, ParseSet, ParsePrimary;
    if IsReference(p) {
      ReadReference(p, k);
    } else {
      SetFacts(p, k);
      SetIsPrimary(Yield(p, k));
      ReadPrimary(p, k, 0, 0);
    }
  }

  lemma ReadConstraint(v: Var, s: Constraint, k: Toks)
    requires ShapeConstraint(v, s) && PolicyRoundTrip.EndsScope(Head(k))
    ensures ParseConstraint(v, YieldConstraint(s, k)) == if WithinConstraint(s) then Some((ScopeOf(s), k)) else None
    ensures !Head(YieldConstraint(s, k)).ErrorToken?
  {
    hide IsReference, IsReferenceSet, Shape, Within, NodeOf, Yield, PartsTokens, Joined, ParseConstraint, Read;
    match s {
      case Anything =>
        PolicyRoundTrip.ReadAny(v, k);
      case Equal(target) =>
        ReadReference(target, k);
        ReadIs(target, Within(target, 0, 0), k);
        ReadEqual(v, Yield(target, k));
      case Inside(target) =>
        ReadInside(v, target, k);
        ReadIs(target, Within(target, 0, 0), k);
        ReadIn(v, Yield(target, k));
      case Typed(parts) =>
        ReadTyped(v, parts, k, k);
        PolicyRoundTrip.ReadIsOnly(Joined(parts), k);
      case TypedInside(parts, target) =>
        ReadReference(target, k);
        ReadIs(target, Within(target, 0, 0), k);
        ReadTyped(v, parts, [Oper(In)] + Yield(target, k), k);
        ReadIsIn(Joined(parts), Yield(target, k));
    }
  }

  lemma ReadEqual(v: Var, ts: Toks)
    requires !Head(ts).ErrorToken?
    ensures ParseConstraint(v, [Oper(Eq)] + ts) ==
      var r := ParseTarget(ts);
      if r.None? then None else Some((EqTo(r.value.0), r.value.1))
  {
    RoundTrip.TakeOne(Oper(Eq), ts);
    hide ParseTarget, Advance;
  }

  lemma ReadIn(v: Var, ts: Toks)
    requires !Head(ts).ErrorToken?
    ensures ParseConstraint(v, [Oper(In)] + ts) ==
      var r := ParseInTarget(v, ts);
      if r.None? then None else Some((InTo(r.value.0), r.value.1))
  {
    RoundTrip.TakeOne(Oper(In), ts);
    hide ParseInTarget, Advance;
  }

  lemma ReadTyped(v: Var, parts: seq<string>, k1: Toks, k: Toks)
    requires v != Action && parts != [] && (k1 == k || Head(k1) == Oper(In)) && PolicyRoundTrip.EndsScope(Head(k))
    ensures ParseConstraint(v, [KwIs] + PartsTokens(parts, k1)) ==
      if |parts| <= 16 then ParseIsTarget(Joined(parts), k1) else None
  {
    assert RoundTrip.Stops(Head(k1), MEMBER);
    ReadParts(parts, k1);
    RoundTrip.TakeOne(KwIs, PartsTokens(parts, k1));
    hide PartsTokens, Joined, ParseTypeName, ParseIsTarget, Advance, RoundTrip.Stops;
  }

  lemma ReadIsIn(ty: string, ts: Toks)
    requires !Head(ts).ErrorToken?
    ensures ParseIsTarget(ty, [Oper(In)] + ts) ==
      var r := ParseTarget(ts);
      if r.None? then None else Some((IsTypeIn(ty, r.value.0), r.value.1))
  {
    RoundTrip.TakeOne(Oper(In), ts);
    hide ParseTarget, Advance;
  }

  lemma ReadScope(v: Var, s: Constraint, k: Toks)
    requires ShapeConstraint(v, s) && PolicyRoundTrip.EndsScope(Head(k))
    ensures ParseScope(v, YieldScope(v, s, k)) == if WithinConstraint(s) then Some((ScopeOf(s), k)) else None
    ensures !Head(YieldScope(v, s, k)).ErrorToken?
  {
    ReadConstraint(v, s, k);
    RoundTrip.TakeOne(KwVar(v), YieldConstraint(s, k));
    hide ShapeConstraint, WithinConstraint, ScopeOf, YieldConstraint, ParseConstraint, Expect;
  }

  lemma ReadScopes(s: Statement, k: Toks)
    requires ShapeStatement(s) && !Head(k).ErrorToken?
    ensures Head(YieldScopes(s, k)) == LParen
    ensures ParseScopes(YieldScopes(s, k)) ==
      if WithinConstraint(s.principal) && WithinConstraint(s.action) && WithinConstraint(s.resource)
      then Some(((ScopeOf(s.principal), ScopeOf(s.action), ScopeOf(s.resource)), k)) else None
  {
    hide ShapeConstraint, WithinConstraint, ScopeOf, YieldScope, ParseScope, Shape, Expect, ShapeNote;
    var k3 := [RParen] + k;
    var t3 := YieldScope(Resource, s.resource, k3);
    var k2 := [Comma] + t3;
    var t2 := YieldScope(Action, s.action, k2);
    var k1 := [Comma] + t2;
    var t1 := YieldScope(Principal, s.principal, k1);
    ReadScope(Resource, s.resource, k3);
    ReadScope(Action, s.action, k2);
    ReadScope(Principal, s.principal, k1);
    RoundTrip.TakeOne(LParen, t1);
    RoundTrip.TakeOne(Comma, t2);
    RoundTrip.TakeOne(Comma, t3);
    RoundTrip.TakeOne(RParen, k);
  }

  // ---- Reading clauses ----

  lemma ReadClause(c: Clause, k: Toks)
    requires Shape(c.e) && !Head(k).ErrorToken?
    ensures YieldClause(c, k) != [] && StartsCondition(Head(YieldClause(c, k))) && !Head(YieldClause(c, k)).ErrorToken?
    ensures ParseCondition(YieldClause(c, k)) == if WithinExpr(c.e, 0, 0) then Some((ConditionOf(c), k)) else None
  {
    hide Shape, WithinExpr, NodeOf, Yield, ParseExpr, Expect, Advance;
    var ts := Yield(c.e, [RBrace] + k);
    CloserStops(k);
    ReadExpr(c.e, [RBrace] + k, 0, 0);
    RoundTrip.TakeOne(if c.isUnless then KwUnless else KwWhen, [LBrace] + ts);
    RoundTrip.TakeOne(LBrace, ts);
    RoundTrip.TakeOne(RBrace, k);
  }

  lemma FirstWithin(clauses: seq<Clause>)
    requires clauses != []
    ensures WithinClauses(clauses) <==> WithinExpr(clauses[0].e, 0, 0) && WithinClauses(clauses[1..])
  {
    hide WithinExpr;
    assert forall i :: 1 <= i < |clauses| ==> clauses[i] == clauses[1..][i - 1];
  }

  lemma {:induction false} ReadClauses(done: seq<Condition>, clauses: seq<Clause>, k: Toks)
    requires |done| <= 16 && Head(k) == Semicolon && forall i :: 0 <= i < |clauses| ==> Shape(clauses[i].e)
    ensures !Head(YieldClauses(clauses, k)).ErrorToken?
    ensures ParseConditions(done, YieldClauses(clauses, k)) ==
      if |done| + |clauses| <= 16 && WithinClauses(clauses) then Some((done + ConditionsOf(clauses), k)) else None
    decreases |clauses|
  {
    hide Shape, WithinExpr, WithinClauses, ParseCondition, YieldClause, ConditionOf;
    if clauses == [] {
      assert done + ConditionsOf([]) == done;
      assert WithinClauses([]) by { NoClauses(); }
    } else {
      var k1 := YieldClauses(clauses[1..], k);
      ClausesHead(clauses[1..], k);
      ReadClause(clauses[0], k1);
      FirstWithin(clauses);
      if |done| < 16 {
        ReadClauses(done + [ConditionOf(clauses[0])], clauses[1..], k);
        assert done + [ConditionOf(clauses[0])] + ConditionsOf(clauses[1..]) == done + ([ConditionOf(clauses[0])] + ConditionsOf(clauses[1..]));
      }
    }
  }

  lemma NoClauses()
    ensures WithinClauses([])
  {
  }

  lemma ClausesHead(clauses: seq<Clause>, k: Toks)
    requires Head(k) == Semicolon
    ensures !Head(YieldClauses(clauses, k)).ErrorToken? && Head(YieldClauses(clauses, k)) != Semicolon ==> clauses != []
    ensures !Head(YieldClauses(clauses, k)).ErrorToken?
  {
  }

  // ---- Reading annotations ----

  lemma ReadNote(a: Note, k: Toks)
    requires ShapeNote(a) && !Head(k).ErrorToken? && Head(k) != LParen
    ensures YieldNote(a, k) != [] && Head(YieldNote(a, k)) == At
    ensures ParseAnnotation(YieldNote(a, k)) == Some((AnnotationOf(a), k))
  {
    hide *;
    NoteFacts(a, k);
    NotErrors(a.key, k);
    if a.value.None? {
      PolicyRoundTrip.TakeTwo(At, a.key, k);
      BareNote(YieldNote(a, k), a.key, k);
    } else {
      var t := a.value.value;
      var t4 := [RParen] + k;
      var t3 := [t] + t4;
      var t2 := [LParen] + t3;
      NotErrors(t, t4);
      NotErrors(t, k);
      NotErrors(t, t3);
      PolicyRoundTrip.TakeTwo(At, a.key, t2);
      RoundTrip.TakeOne(LParen, t3);
      RoundTrip.TakeOne(t, t4);
      RoundTrip.TakeOne(RParen, k);
      First(a.key, t2);
      First(LParen, t3);
      First(t, t4);
      ValueParts(NameOf(a.key), t2, t3, t4, t, k);
      ValuedNote(YieldNote(a, k), [a.key] + t2, a.key, t2);
    }
  }

  lemma First(t: Token, k: Toks)
    ensures Head([t] + k) == t
  {
  }

  lemma NoteFacts(a: Note, k: Toks)
    requires ShapeNote(a)
    ensures IsBare(a.key) && !a.key.ErrorToken? && (a.value.Some? ==> IsPlain(a.value.value))
    ensures YieldNote(a, k) == [At] + ([a.key] + (if a.value.None? then k else [LParen] + ([a.value.value] + ([RParen] + k))))
    ensures AnnotationOf(a) == Annotation(NameOf(a.key), if a.value.None? then "" else NameOf(a.value.value))
    ensures YieldNote(a, k) != [] && Head(YieldNote(a, k)) == At
  {
    hide NameOf;
  }

  lemma BareNote(ts: Toks, key: Token, k: Toks)
    requires ts != [] && Advance(ts) == Some([key] + k) && Advance([key] + k) == Some(k) && IsBare(key) && Head(k) != LParen
    ensures ParseAnnotation(ts) == Some((Annotation(NameOf(key), ""), k))
  {
    hide Advance, ExtName;
  }

  lemma ValuedNote(ts: Toks, t1: Toks, key: Token, t2: Toks)
    requires ts != [] && Advance(ts) == Some(t1) && Head(t1) == key && t1 != [] && Advance(t1) == Some(t2) && IsBare(key)
    requires t2 != [] && Head(t2) == LParen
    ensures ParseAnnotation(ts) == ParseAnnotationValue(NameOf(key), t2)
  {
    hide Advance, ExtName, ParseAnnotationValue;
  }

  lemma ValueParts(name: string, t2: Toks, t3: Toks, t4: Toks, t: Token, k: Toks)
    requires t2 != [] && Advance(t2) == Some(t3) && t3 != [] && Head(t3) == t && IsPlain(t) && Advance(t3) == Some(t4)
    requires Expect(t4, RParen) == Some(k)
    ensures ParseAnnotationValue(name, t2) == Some((Annotation(name, NameOf(t)), k))
  {
    hide Advance, Expect;
  }

  lemma {:induction false} ReadNotes(done: seq<Annotation>, notes: seq<Note>, k: Toks)
    requires |done| <= 16 && PolicyRoundTrip.DistinctAnnotations(done) && IsEffect(Head(k))
    requires forall i :: 0 <= i < |notes| ==> ShapeNote(notes[i])
    ensures ParseAnnotations(done, YieldNotes(notes, k)) ==
      if |done| + |notes| <= 16 && PolicyRoundTrip.DistinctAnnotations(done + AnnotationsOf(notes))
      then Some((done + AnnotationsOf(notes), k)) else None
    decreases |notes|
  {
    hide ShapeNote, ParseAnnotation, YieldNote, AnnotationOf, HasAnnotation, PolicyRoundTrip.DistinctAnnotations;
    NotesHead(notes, k);
    if notes == [] {
      assert done + AnnotationsOf([]) == done;
    } else {
      var a := AnnotationOf(notes[0]);
      var all := AnnotationsOf(notes);
      assert all[1..] == AnnotationsOf(notes[1..]);
      assert done + [a] + AnnotationsOf(notes[1..]) == done + all;
      NotesHead(notes[1..], k);
      ReadNote(notes[0], YieldNotes(notes[1..], k));
      PolicyRoundTrip.NewAnnotation(done, all);
      if |done| < 16 && !HasAnnotation(done, a.key) {
        ReadNotes(done + [a], notes[1..], k);
      }
    }
  }

  lemma NotesHead(notes: seq<Note>, k: Toks)
    requires IsEffect(Head(k))
    ensures var h := Head(YieldNotes(notes, k)); YieldNotes(notes, k) != [] && (h == At || IsEffect(h)) && !h.ErrorToken? && h != LParen
    ensures notes == [] ==> Head(YieldNotes(notes, k)) != At
  {
  }

  /** Distinct keys, of the notes and of the annotations they stand for. */
  lemma KeysAlike(notes: seq<Note>)
    ensures DistinctKeys(notes) <==> PolicyRoundTrip.DistinctAnnotations(AnnotationsOf(notes))
  {
    hide NameOf;
    var all := AnnotationsOf(notes);
    AnnotationsAt(notes);
    assert forall i :: 0 <= i < |notes| ==> all[i] == AnnotationOf(notes[i]) && all[i].key == NameOf(notes[i].key);
    hide AnnotationsOf, AnnotationOf;
  }

  // ---- Reading statements ----

  lemma ReadBody(s: Statement, k: Toks)
    requires ShapeStatement(s) && !Head(k).ErrorToken?
    ensures YieldBody(s, k) != [] && IsEffect(Head(YieldBody(s, k)))
    ensures ParsePolicy(AnnotationsOf(s.notes), YieldBody(s, k)) ==
      if WithinConstraint(s.principal) && WithinConstraint(s.action) && WithinConstraint(s.resource)
         && |s.clauses| <= 16 && WithinClauses(s.clauses)
      then Some((PolicyOf(s), k)) else None
  {
    ClausesShape(s);
    BodyFacts(s, k);
    hide *;
    var k2 := [Semicolon] + k;
    var k1 := YieldClauses(s.clauses, k2);
    ReadClauses([], s.clauses, k2);
    assert [] + ConditionsOf(s.clauses) == ConditionsOf(s.clauses);
    ReadScopes(s, k1);
    RoundTrip.TakeOne(Semicolon, k);
    BodyParts(s, YieldScopes(s, k1), k1, k2, k);
  }

  lemma BodyFacts(s: Statement, k: Toks)
    ensures YieldBody(s, k) ==
      [if s.isForbid then KwForbid else KwPermit] + YieldScopes(s, YieldClauses(s.clauses, [Semicolon] + k))
    ensures YieldBody(s, k) != [] && IsEffect(Head(YieldBody(s, k))) && Head([Semicolon] + k) == Semicolon
  {
    hide YieldScopes, YieldClauses;
  }

  lemma BodyParts(s: Statement, t1: Toks, k1: Toks, k2: Toks, k: Toks)
    requires Head(t1) == LParen && Expect(k2, Semicolon) == Some(k)
    requires ParseConditions([], k1).Some? ==> ParseConditions([], k1).value == (ConditionsOf(s.clauses), k2)
    requires ParseScopes(t1).Some? ==>
      ParseScopes(t1).value == ((ScopeOf(s.principal), ScopeOf(s.action), ScopeOf(s.resource)), k1)
    ensures ParsePolicy(AnnotationsOf(s.notes), [if s.isForbid then KwForbid else KwPermit] + t1) ==
      if ParseScopes(t1).Some? && ParseConditions([], k1).Some? then Some((PolicyOf(s), k)) else None
  {
    hide ParseScopes, ParseConditions, AnnotationsOf, ScopeOf, ConditionsOf, Advance, Expect;
    RoundTrip.TakeOne(if s.isForbid then KwForbid else KwPermit, t1);
  }

  lemma ClausesShape(s: Statement)
    requires ShapeStatement(s)
    ensures forall i :: 0 <= i < |s.clauses| ==> Shape(s.clauses[i].e)
    ensures forall i :: 0 <= i < |s.notes| ==> ShapeNote(s.notes[i])
  {
    hide Shape, ShapeNote, ShapeConstraint;
  }

  lemma ReadStatement(s: Statement, k: Toks)
    requires ShapeStatement(s) && !Head(k).ErrorToken?
    ensures var h := Head(YieldStatement(s, k)); YieldStatement(s, k) != [] && (h == At || IsEffect(h)) && !h.ErrorToken?
    ensures ParseAnnotated(YieldStatement(s, k)) == if WithinStatement(s) then Some((PolicyOf(s), k)) else None
  {
    hide *;
    ClausesShape(s);
    StatementFacts(s, k);
    ReadBody(s, k);
    ReadAllNotes(s.notes, YieldBody(s, k));
    AnnotatedIs(YieldStatement(s, k), AnnotationsOf(s.notes), YieldBody(s, k));
  }

  lemma ReadAllNotes(notes: seq<Note>, k: Toks)
    requires IsEffect(Head(k)) && forall i :: 0 <= i < |notes| ==> ShapeNote(notes[i])
    ensures var h := Head(YieldNotes(notes, k)); YieldNotes(notes, k) != [] && (h == At || IsEffect(h)) && !h.ErrorToken?
    ensures ParseAnnotations([], YieldNotes(notes, k)) ==
      if |notes| <= 16 && DistinctKeys(notes) then Some((AnnotationsOf(notes), k)) else None
  {
    hide *;
    NoAnnotations();
    ReadNotes([], notes, k);
    assert [] + AnnotationsOf(notes) == AnnotationsOf(notes);
    KeysAlike(notes);
    NotesHead(notes, k);
  }

  lemma AnnotatedIs(ts: Toks, anns: seq<Annotation>, k: Toks)
    requires ts != [] && k != [] && IsEffect(Head(k)) && (ParseAnnotations([], ts).Some? ==> ParseAnnotations([], ts).value == (anns, k))
    ensures ParseAnnotated(ts) == if ParseAnnotations([], ts).None? then None else ParsePolicy(anns, k)
  {
    hide ParseAnnotations, ParsePolicy;
  }

  lemma NoAnnotations()
    ensures PolicyRoundTrip.DistinctAnnotations([])
  {
  }

  lemma StatementFacts(s: Statement, k: Toks)
    ensures YieldStatement(s, k) == YieldNotes(s.notes, YieldBody(s, k))
    ensures WithinStatement(s) <==>
      && |s.notes| <= 16 && DistinctKeys(s.notes)
      && WithinConstraint(s.principal) && WithinConstraint(s.action) && WithinConstraint(s.resource)
      && |s.clauses| <= 16 && WithinClauses(s.clauses)
  {
    hide YieldNotes, YieldBody, DistinctKeys, WithinConstraint, WithinClauses;
  }

  predicate WithinStatements(ss: seq<Statement>) {
    forall i :: 0 <= i < |ss| ==> WithinStatement(ss[i])
  }

  lemma {:induction false} ReadStatements(done: seq<Policy>, ss: seq<Statement>)
    requires |done| <= 256 && forall i :: 0 <= i < |ss| ==> ShapeStatement(ss[i])
    ensures !Head(YieldStatements(ss)).ErrorToken?
    ensures ParsePolicies(done, YieldStatements(ss)) ==
      if |done| + |ss| <= 256 && WithinStatements(ss) then Some(done + PoliciesOf(ss)) else None
    decreases |ss|
  {
    hide ShapeStatement, WithinStatement, ParseAnnotated, YieldStatement, PolicyOf;
    if ss == [] {
      assert done + PoliciesOf([]) == done;
    } else {
      var p, rest := PolicyOf(ss[0]), ss[1..];
      StatementsHead(rest);
      ReadStatement(ss[0], YieldStatements(rest));
      assert forall i :: 1 <= i < |ss| ==> ss[i] == rest[i - 1];
      if |done| < 256 {
        ReadStatements(done + [p], rest);
        assert done + [p] + PoliciesOf(rest) == done + ([p] + PoliciesOf(rest));
      }
    }
  }

  lemma StatementsHead(ss: seq<Statement>)
    requires forall i :: 0 <= i < |ss| ==> ShapeStatement(ss[i])
    ensures !Head(YieldStatements(ss)).ErrorToken?
  {
    hide *;
    if ss != [] {
      StatementsFirst(ss);
      NoErrorFirst(ss[0], YieldStatements(ss[1..]));
    } else {
      NoTokens();
    }
  }

  lemma StatementsFirst(ss: seq<Statement>)
    requires ss != []
    ensures YieldStatements(ss) == YieldStatement(ss[0], YieldStatements(ss[1..]))
  {
    hide YieldStatement;
  }

  lemma NoTokens()
    ensures YieldStatements([]) == [] && Head([]) == Eof
  {
  }

  lemma NoErrorFirst(s: Statement, k: Toks)
    requires ShapeStatement(s)
    ensures !Head(YieldStatement(s, k)).ErrorToken?
  {
    hide ShapeStatement, YieldScopes, YieldClauses;
    if s.notes != [] {
      assert Head(YieldNotes(s.notes, YieldBody(s, k))) == At;
    }
  }

  /** Every sequence of statements is read as its policies, if it keeps the limits. */
  lemma ReadPolicySet(ss: seq<Statement>)
    requires forall i :: 0 <= i < |ss| ==> ShapeStatement(ss[i])
    ensures ParsePolicySet(YieldStatements(ss)) == if |ss| <= 256 && WithinStatements(ss) then Some(PoliciesOf(ss)) else None
  {
    hide ShapeStatement, YieldStatements, ParsePolicies, PoliciesOf, WithinStatements;
    ReadStatements([], ss);
    assert [] + PoliciesOf(ss) == PoliciesOf(ss);
  }
}
