/**
 * Whole policy sets: printing and parsing are inverse to each other, on tokens and on text.
 */
module PolicyRoundTrip {
  import opened Common
  import opened Syntax
  import opened Grammar
  import opened PolicyGrammar
  import opened Printer
  import Lexer
  import RoundTrip

  // ---- Policies that can be written ----

  predicate IsTarget(n: Node) {
    n.EntityRef? && RoundTrip.IsTypeName(n.ty)
  }

  predicate IsTargetSet(n: Node) {
    n.SetLit? && |n.elts| <= MAX_SET_ELEMENTS && forall i :: 0 <= i < |n.elts| ==> IsTarget(n.elts[i])
  }

  /** Sets only after `action in`, and `is` nowhere in the scope of the action. */
  predicate IsScope(v: Var, s: Scope) {
    match s
    case AnyEntity => true
    case EqTo(n) => IsTarget(n)
    case InTo(n) => IsTarget(n) || (v == Action && IsTargetSet(n))
    case IsType(ty) => v != Action && RoundTrip.IsTypeName(ty)
    case IsTypeIn(ty, n) => v != Action && RoundTrip.IsTypeName(ty) && IsTarget(n)
  }

  predicate DistinctAnnotations(anns: seq<Annotation>) {
    forall i, j :: 0 <= i < j < |anns| ==> anns[i].key != anns[j].key
  }

  predicate ProperKeys(anns: seq<Annotation>) {
    forall i :: 0 <= i < |anns| ==> IsPlainName(anns[i].key)
  }

  predicate ProperConditions(conds: seq<Condition>) {
    forall i :: 0 <= i < |conds| ==> RoundTrip.WellFormed(conds[i].expr)
  }

  predicate IsPolicy(p: Policy) {
    && ProperKeys(p.annotations) && ProperConditions(p.conditions)
    && IsScope(Principal, p.principal) && IsScope(Action, p.action) && IsScope(Resource, p.resource)
  }

  // ---- The limits ----

  predicate ConditionFits(c: Condition) {
    RoundTrip.Fits(c.expr, EXPR, 0, 0)
  }

  predicate ConditionsFit(conds: seq<Condition>) {
    forall i :: 0 <= i < |conds| ==> ConditionFits(conds[i])
  }

  predicate PolicyFits(p: Policy) {
    && |p.annotations| <= MAX_ANNOTATIONS && DistinctAnnotations(p.annotations)
    && |p.conditions| <= MAX_CONDITIONS && ConditionsFit(p.conditions)
  }

  predicate PoliciesFit(ps: seq<Policy>) {
    |ps| <= MAX_POLICIES && forall i :: 0 <= i < |ps| ==> PolicyFits(ps[i])
  }

  // ---- Printing ----

  function PrintConstraint(s: Scope, k: Toks): Toks {
    match s
    case AnyEntity => k
    case EqTo(n) => [Oper(Eq)] + Raw(n, k)
    case InTo(n) => [Oper(In)] + Raw(n, k)
    case IsType(ty) => [KwIs] + TypeTokens(Segments(ty), k)
    case IsTypeIn(ty, n) => [KwIs] + TypeTokens(Segments(ty), [Oper(In)] + Raw(n, k))
  }

  function PrintScope(v: Var, s: Scope, k: Toks): Toks {
    [KwVar(v)] + PrintConstraint(s, k)
  }

  function PrintCondition(c: Condition, k: Toks): Toks {
    [if c.isUnless then KwUnless else KwWhen] + ([LBrace] + Print(c.expr, EXPR, [RBrace] + k))
  }

  function PrintConditions(conds: seq<Condition>, k: Toks): Toks {
    if conds == [] then k else PrintCondition(conds[0], PrintConditions(conds[1..], k))
  }

  function PrintAnnotation(a: Annotation, k: Toks): Toks {
    [At] + ([Lexer.NameToken(a.key)] +
    if a.value == "" then k else [LParen] + ([StrToken(a.value)] + ([RParen] + k)))
  }

  function PrintAnnotations(anns: seq<Annotation>, k: Toks): Toks {
    if anns == [] then k else PrintAnnotation(anns[0], PrintAnnotations(anns[1..], k))
  }

  function PrintScopes(p: Policy, k: Toks): Toks {
    [LParen] + PrintScope(Principal, p.principal,
    [Comma] + PrintScope(Action, p.action, [Comma] + PrintScope(Resource, p.resource, [RParen] + k)))
  }

  function PrintBody(p: Policy, k: Toks): Toks {
    [if p.isForbid then KwForbid else KwPermit] + PrintScopes(p, PrintConditions(p.conditions, [Semicolon] + k))
  }

  function PrintPolicy(p: Policy, k: Toks): Toks {
    PrintAnnotations(p.annotations, PrintBody(p, k))
  }

  function PrintPolicies(ps: seq<Policy>): Toks {
    if ps == [] then [] else PrintPolicy(ps[0], PrintPolicies(ps[1..]))
  }

  // ---- Scopes ----

  lemma TargetTrip(n: Node, k: Toks)
    requires IsTarget(n) && !Head(k).ErrorToken?
    ensures ParseTarget(Raw(n, k)) == Some((n, k)) && Head(Raw(n, k)).Ident?
  {
    hide RoundTrip.IsTypeName, ParseEntityRef;
    RoundTrip.ReadEntity(n.ty, n.id, k, 0, 0);
    RoundTrip.TypeTokensNonEmpty(Segments(n.ty), [ColonColon] + ([StrToken(n.id)] + k));
    TargetNext(n, k);
    RoundTrip.PrimaryIdent(Raw(n, k), 0, 0);
  }

  /** An identifier is followed by `::`. */
  lemma TargetNext(n: Node, k: Toks)
    requires n.EntityRef?
    ensures Raw(n, k) != [] && !Head(Raw(n, k)[1..]).ErrorToken?
  {
    var parts := Segments(n.ty);
    if |parts| > 1 {
      RoundTrip.TypeTokensNonEmpty(parts[1..], [ColonColon] + ([StrToken(n.id)] + k));
    }
  }

  lemma {:induction false} TargetsFit(elts: seq<Node>)
    requires forall i :: 0 <= i < |elts| ==> IsTarget(elts[i])
    ensures RoundTrip.FitElts(elts, 0, 0)
    decreases |elts|
  {
    if elts != [] {
      TargetsFit(elts[1..]);
    }
  }

  lemma TargetSetTrip(n: Node, k: Toks)
    requires IsTargetSet(n) && !Head(k).ErrorToken?
    ensures ParseInTarget(Action, Raw(n, k)) == Some((n, k)) && Head(Raw(n, k)) == LBracket
  {
    hide ParseSet, RoundTrip.FitElts, RoundTrip.IsTypeName;
    TargetsFit(n.elts);
    forall i | 0 <= i < |n.elts| ensures RoundTrip.WellFormed(n.elts[i]) {
      assert IsTarget(n.elts[i]);
    }
    RoundTrip.SetTrip(n.elts, k, 0, 0);
  }

  lemma InTargetTrip(v: Var, n: Node, k: Toks)
    requires IsTarget(n) || (v == Action && IsTargetSet(n))
    requires !Head(k).ErrorToken?
    ensures ParseInTarget(v, Raw(n, k)) == Some((n, k)) && !Head(Raw(n, k)).ErrorToken?
  {
    hide Raw, ParseSet, ParseTarget, IsTarget;
    if IsTarget(n) {
      TargetTrip(n, k);
    } else {
      TargetSetTrip(n, k);
    }
  }

  /** The tokens after a scope. */
  predicate EndsScope(t: Token) {
    t == Comma || t == RParen
  }

  lemma ConstraintTrip(v: Var, s: Scope, k: Toks)
    requires IsScope(v, s) && EndsScope(Head(k))
    ensures ParseConstraint(v, PrintConstraint(s, k)) == Some((s, k))
    ensures !Head(PrintConstraint(s, k)).ErrorToken?
  {
    hide Raw, ParseConstraint, TypeTokens, Segments, IsTarget, IsTargetSet;
    match s {
      case AnyEntity =>
        ReadAny(v, k);
      case EqTo(n) =>
        TargetTrip(n, k);
        ReadEq(v, n, k);
      case InTo(n) =>
        InTargetTrip(v, n, k);
        ReadIn(v, n, k);
      case IsType(ty) =>
        ReadIs(v, s, ty, k, k);
      case IsTypeIn(ty, n) =>
        TargetTrip(n, k);
        ReadIs(v, s, ty, [Oper(In)] + Raw(n, k), k);
    }
  }

  lemma ReadAny(v: Var, k: Toks)
    requires EndsScope(Head(k))
    ensures ParseConstraint(v, k) == Some((AnyEntity, k))
  {
  }

  lemma ReadEq(v: Var, n: Node, k: Toks)
    requires ParseTarget(Raw(n, k)) == Some((n, k)) && !Head(Raw(n, k)).ErrorToken?
    ensures ParseConstraint(v, [Oper(Eq)] + Raw(n, k)) == Some((EqTo(n), k))
  {
    hide Raw, ParseTarget;
    RoundTrip.TakeOne(Oper(Eq), Raw(n, k));
  }

  lemma ReadIn(v: Var, n: Node, k: Toks)
    requires ParseInTarget(v, Raw(n, k)) == Some((n, k)) && !Head(Raw(n, k)).ErrorToken?
    ensures ParseConstraint(v, [Oper(In)] + Raw(n, k)) == Some((InTo(n), k))
  {
    hide Raw, ParseInTarget;
    RoundTrip.TakeOne(Oper(In), Raw(n, k));
  }

  /** `is T`, and `is T in` an entity, whose tokens k1 begin with `in`. */
  lemma ReadIs(v: Var, s: Scope, ty: string, k1: Toks, k: Toks)
    requires v != Action && RoundTrip.IsTypeName(ty) && EndsScope(Head(k))
    requires if s.IsTypeIn? then
      s.ty == ty && k1 == [Oper(In)] + Raw(s.target, k) && ParseTarget(Raw(s.target, k)) == Some((s.target, k))
      && !Head(Raw(s.target, k)).ErrorToken?
      else s == IsType(ty) && k1 == k
    ensures ParseConstraint(v, [KwIs] + TypeTokens(Segments(ty), k1)) == Some((s, k))
  {
    hide Raw, ParseTarget, ParseIsTarget, ParseTypeName, TypeTokens, Segments, RoundTrip.IsTypeName;
    RoundTrip.ReadTypeName(ty, k1);
    RoundTrip.TypeTokensNonEmpty(Segments(ty), k1);
    RoundTrip.TakeOne(KwIs, TypeTokens(Segments(ty), k1));
    if s.IsTypeIn? {
      ReadIsIn(ty, s.target, k);
    } else {
      ReadIsOnly(ty, k);
    }
  }

  lemma ReadIsIn(ty: string, n: Node, k: Toks)
    requires ParseTarget(Raw(n, k)) == Some((n, k)) && !Head(Raw(n, k)).ErrorToken?
    ensures ParseIsTarget(ty, [Oper(In)] + Raw(n, k)) == Some((IsTypeIn(ty, n), k))
  {
    hide Raw, ParseTarget;
    RoundTrip.TakeOne(Oper(In), Raw(n, k));
  }

  lemma ReadIsOnly(ty: string, k: Toks)
    requires EndsScope(Head(k))
    ensures ParseIsTarget(ty, k) == Some((IsType(ty), k))
  {
  }

  lemma ScopeTrip(v: Var, s: Scope, k: Toks)
    requires IsScope(v, s) && EndsScope(Head(k))
    ensures ParseScope(v, PrintScope(v, s, k)) == Some((s, k))
  {
    hide PrintConstraint, ParseConstraint;
    ConstraintTrip(v, s, k);
  }

  lemma ScopesTrip(p: Policy, k: Toks)
    requires IsScope(Principal, p.principal) && IsScope(Action, p.action) && IsScope(Resource, p.resource)
    requires !Head(k).ErrorToken?
    ensures ParseScopes(PrintScopes(p, k)) == Some(((p.principal, p.action, p.resource), k))
  {
    hide PrintScope, ParseScope, IsScope;
    var k3 := [RParen] + k;
    var k2 := [Comma] + PrintScope(Resource, p.resource, k3);
    var k1 := [Comma] + PrintScope(Action, p.action, k2);
    ScopeTrip(Resource, p.resource, k3);
    ScopeTrip(Action, p.action, k2);
    ScopeTrip(Principal, p.principal, k1);
    ScopeHead(Principal, p.principal, k1);
    ScopeHead(Action, p.action, k2);
    ScopeHead(Resource, p.resource, k3);
  }

  lemma ScopeHead(v: Var, s: Scope, k: Toks)
    ensures PrintScope(v, s, k) != [] && !Head(PrintScope(v, s, k)).ErrorToken?
  {
  }

  // ---- Conditions and annotations ----

  lemma ConditionTrip(c: Condition, k: Toks)
    requires RoundTrip.WellFormed(c.expr) && !Head(k).ErrorToken?
    ensures PrintCondition(c, k) != [] && StartsCondition(Head(PrintCondition(c, k)))
    ensures ParseCondition(PrintCondition(c, k)) == if ConditionFits(c) then Some((c, k)) else None
  {
    hide ParseExpr, Print, RoundTrip.WellFormed, RoundTrip.Fits;
    RoundTrip.ParsePrint(c.expr, [RBrace] + k, 0, 0);
    RoundTrip.PrintHead(c.expr, EXPR, [RBrace] + k);
  }

  lemma {:induction false} ConditionsTrip(done: seq<Condition>, conds: seq<Condition>, k: Toks)
    requires |done| <= MAX_CONDITIONS && ProperConditions(conds) && Head(k) == Semicolon
    ensures ParseConditions(done, PrintConditions(conds, k)) ==
      if |done| + |conds| <= MAX_CONDITIONS && ConditionsFit(conds) then Some((done + conds, k)) else None
    ensures !Head(PrintConditions(conds, k)).ErrorToken?
    decreases |conds|
  {
    hide ParseCondition, PrintCondition, ConditionFits, RoundTrip.WellFormed;
    if conds == [] {
      assert done + conds == done;
    } else {
      var k1 := PrintConditions(conds[1..], k);
      if |done| < MAX_CONDITIONS {
        ConditionsTrip(done + [conds[0]], conds[1..], k);
        assert done + [conds[0]] + conds[1..] == done + conds;
      } else {
        ConditionsHead(conds[1..], k);
      }
      ConditionTrip(conds[0], k1);
      FirstFits(conds);
    }
  }

  lemma FirstFits(conds: seq<Condition>)
    requires conds != []
    ensures ConditionsFit(conds) <==> ConditionFits(conds[0]) && ConditionsFit(conds[1..])
  {
    hide ConditionFits;
    assert forall i :: 1 <= i < |conds| ==> conds[i] == conds[1..][i - 1];
  }

  lemma ConditionsHead(conds: seq<Condition>, k: Toks)
    requires Head(k) == Semicolon
    ensures !Head(PrintConditions(conds, k)).ErrorToken?
  {
  }

  lemma NameRead(name: string)
    requires IsPlainName(name)
    ensures IdentName(Lexer.NameToken(name)) == Some(name) && !Lexer.NameToken(name).ErrorToken?
  {
  }

  lemma AnnotationTrip(a: Annotation, k: Toks)
    requires IsPlainName(a.key) && !Head(k).ErrorToken? && Head(k) != LParen
    ensures PrintAnnotation(a, k) != [] && Head(PrintAnnotation(a, k)) == At
    ensures ParseAnnotation(PrintAnnotation(a, k)) == Some((a, k))
  {
    NameRead(a.key);
    AnnotationUnfold(a, k);
    hide Lexer.NameToken, IsPlainName, IdentName, StrToken, PrintAnnotation;
    var name := Lexer.NameToken(a.key);
    if a.value == "" {
      TakeTwo(At, name, k);
    } else {
      var k1 := [StrToken(a.value)] + ([RParen] + k);
      ValueRead(a.value);
      TakeTwo(At, name, [LParen] + k1);
      RoundTrip.TakeOne(LParen, k1);
      RoundTrip.TakeOne(StrToken(a.value), [RParen] + k);
      RoundTrip.TakeOne(RParen, k);
    }
  }

  lemma AnnotationUnfold(a: Annotation, k: Toks)
    ensures PrintAnnotation(a, k) == [At] + ([Lexer.NameToken(a.key)] +
      (if a.value == "" then k else [LParen] + ([StrToken(a.value)] + ([RParen] + k))))
  {
  }

  lemma ValueRead(value: string)
    ensures PlainString(StrToken(value)) == Some(value) && !StrToken(value).ErrorToken?
  {
  }

  lemma TakeTwo(t: Token, u: Token, k: Toks)
    requires !u.ErrorToken? && !Head(k).ErrorToken?
    ensures Advance([t] + ([u] + k)) == Some([u] + k) && Advance([u] + k) == Some(k)
  {
    RoundTrip.TakeOne(t, [u] + k);
    RoundTrip.TakeOne(u, k);
  }

  lemma {:induction false} AnnotationsTrip(done: seq<Annotation>, anns: seq<Annotation>, k: Toks)
    requires |done| <= MAX_ANNOTATIONS && DistinctAnnotations(done) && ProperKeys(anns) && IsEffect(Head(k))
    ensures ParseAnnotations(done, PrintAnnotations(anns, k)) ==
      if |done| + |anns| <= MAX_ANNOTATIONS && DistinctAnnotations(done + anns) then Some((done + anns, k)) else None
    decreases |anns|
  {
    hide ParseAnnotation, PrintAnnotation, IsPlainName, HasAnnotation, DistinctAnnotations;
    AnnotationsHead(anns, k);
    if anns == [] {
      assert done + anns == done;
    } else {
      assert done + [anns[0]] + anns[1..] == done + anns;
      AnnotationsHead(anns[1..], k);
      AnnotationTrip(anns[0], PrintAnnotations(anns[1..], k));
      NewAnnotation(done, anns);
      if |done| < MAX_ANNOTATIONS && !HasAnnotation(done, anns[0].key) {
        AnnotationsTrip(done + [anns[0]], anns[1..], k);
      }
    }
  }

  lemma {:induction false} AnnotationsHead(anns: seq<Annotation>, k: Toks)
    requires IsEffect(Head(k))
    ensures PrintAnnotations(anns, k) != []
    ensures Head(PrintAnnotations(anns, k)) == At || IsEffect(Head(PrintAnnotations(anns, k)))
  {
  }

  lemma NewAnnotation(done: seq<Annotation>, anns: seq<Annotation>)
    requires anns != [] && DistinctAnnotations(done)
    ensures HasAnnotation(done, anns[0].key) ==> !DistinctAnnotations(done + anns)
    ensures !HasAnnotation(done, anns[0].key) ==> DistinctAnnotations(done + [anns[0]])
  {
    assert (done + anns)[|done|] == anns[0];
    assert forall i :: 0 <= i < |done| ==> (done + anns)[i] == done[i];
  }

  // ---- Policies ----

  lemma BodyTrip(p: Policy, k: Toks)
    requires IsPolicy(p) && !Head(k).ErrorToken?
    ensures PrintBody(p, k) != [] && IsEffect(Head(PrintBody(p, k)))
    ensures ParsePolicy(p.annotations, PrintBody(p, k)) ==
      if |p.conditions| <= MAX_CONDITIONS && ConditionsFit(p.conditions) then Some((p, k)) else None
  {
    hide PrintScopes, ParseScopes, PrintConditions, ParseConditions, ConditionsFit, IsScope, ProperConditions, ProperKeys;
    var k1 := PrintConditions(p.conditions, [Semicolon] + k);
    ConditionsTrip([], p.conditions, [Semicolon] + k);
    assert [] + p.conditions == p.conditions;
    ScopesTrip(p, k1);
    ScopesHead(p, k1);
  }

  lemma ScopesHead(p: Policy, k: Toks)
    ensures PrintScopes(p, k) != [] && Head(PrintScopes(p, k)) == LParen
  {
  }

  lemma PolicyTrip(p: Policy, k: Toks)
    requires IsPolicy(p) && !Head(k).ErrorToken?
    ensures PrintPolicy(p, k) != [] && (Head(PrintPolicy(p, k)) == At || IsEffect(Head(PrintPolicy(p, k))))
    ensures ParseAnnotated(PrintPolicy(p, k)) == if PolicyFits(p) then Some((p, k)) else None
  {
    hide *;
    PolicyParts(p);
    BodyTrip(p, k);
    AnnotationsTrip([], p.annotations, PrintBody(p, k));
    assert [] + p.annotations == p.annotations;
    AnnotationsHead(p.annotations, PrintBody(p, k));
    PolicyShape(p, k);
    AnnotatedReads(PrintPolicy(p, k));
  }

  lemma PolicyParts(p: Policy)
    requires IsPolicy(p)
    ensures ProperKeys(p.annotations) && 0 <= MAX_ANNOTATIONS && DistinctAnnotations([])
    ensures PolicyFits(p) <==>
      |p.annotations| <= MAX_ANNOTATIONS && DistinctAnnotations(p.annotations)
      && |p.conditions| <= MAX_CONDITIONS && ConditionsFit(p.conditions)
  {
    hide ProperKeys, ProperConditions, IsScope, ConditionsFit;
  }

  lemma PolicyShape(p: Policy, k: Toks)
    ensures PrintPolicy(p, k) == PrintAnnotations(p.annotations, PrintBody(p, k))
  {
  }

  lemma AnnotatedReads(ts: Toks)
    requires ts != []
    ensures ParseAnnotations([], ts).None? ==> ParseAnnotated(ts) == None
    ensures forall anns, rest :: ParseAnnotations([], ts) == Some((anns, rest)) && IsEffect(Head(rest)) && rest != [] ==>
      ParseAnnotated(ts) == ParsePolicy(anns, rest)
  {
    hide ParseAnnotations, ParsePolicy;
  }

  lemma {:induction false} PoliciesTrip(done: seq<Policy>, ps: seq<Policy>)
    requires |done| <= MAX_POLICIES && forall i :: 0 <= i < |ps| ==> IsPolicy(ps[i])
    ensures !Head(PrintPolicies(ps)).ErrorToken?
    ensures ParsePolicies(done, PrintPolicies(ps)) ==
      if |done| + |ps| <= MAX_POLICIES && (forall i :: 0 <= i < |ps| ==> PolicyFits(ps[i])) then Some(done + ps) else None
    decreases |ps|
  {
    hide ParseAnnotated, PrintPolicy, IsPolicy, PolicyFits;
    if ps == [] {
      assert done + ps == done;
    } else {
      PoliciesHead(ps[1..]);
      PolicyTrip(ps[0], PrintPolicies(ps[1..]));
      if |done| < MAX_POLICIES {
        PoliciesTrip(done + [ps[0]], ps[1..]);
        assert done + [ps[0]] + ps[1..] == done + ps;
        assert forall i :: 1 <= i < |ps| ==> ps[i] == ps[1..][i - 1];
      }
    }
  }

  lemma {:induction false} PoliciesHead(ps: seq<Policy>)
    requires forall i :: 0 <= i < |ps| ==> IsPolicy(ps[i])
    ensures !Head(PrintPolicies(ps)).ErrorToken?
    decreases |ps|
  {
    hide PrintPolicy, IsPolicy;
    if ps != [] {
      PoliciesHead(ps[1..]);
      PolicyTrip(ps[0], PrintPolicies(ps[1..]));
    }
  }

  /** Parsing undoes printing, for exactly the policy sets that keep the limits; others are rejected. */
  lemma ParsePrintPolicies(ps: seq<Policy>)
    requires forall i :: 0 <= i < |ps| ==> IsPolicy(ps[i])
    ensures ParsePolicySet(PrintPolicies(ps)) == if PoliciesFit(ps) then Some(ps) else None
  {
    hide *;
    PoliciesShape(ps);
    PoliciesTrip([], ps);
    assert [] + ps == ps;
  }

  lemma PoliciesShape(ps: seq<Policy>)
    ensures 0 <= MAX_POLICIES && ParsePolicySet(PrintPolicies(ps)) == ParsePolicies([], PrintPolicies(ps))
    ensures PoliciesFit(ps) <==> |ps| <= MAX_POLICIES && forall i :: 0 <= i < |ps| ==> PolicyFits(ps[i])
  {
    hide PolicyFits, ParsePolicies, PrintPolicies;
  }
}
