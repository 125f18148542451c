/**
 * What the policy parser returns on any text: the limits it keeps, and that it read the whole text
 * without meeting an error token.
 */
module PolicyImage {
  import opened Common
  import opened Digits
  import opened Syntax
  import opened Grammar
  import opened PolicyGrammar
  import opened ParserImage
  import opened PolicyRoundTrip
  import opened Scanner
  import Decision
  import Lexer
  import Printer
  import Rendering
  import RoundTrip
  import Semantics

  /** A policy within the limits of the parser, whose records nest at most sixteen deep. */
  predicate IsParsed(p: Policy) {
    && |p.annotations| <= MAX_ANNOTATIONS && DistinctAnnotations(p.annotations)
    && (forall i :: 0 <= i < |p.annotations| ==> Printer.IsPlainName(p.annotations[i].key))
    && IsScope(Principal, p.principal) && IsScope(Action, p.action) && IsScope(Resource, p.resource)
    && |p.conditions| <= MAX_CONDITIONS && forall i :: 0 <= i < |p.conditions| ==> Fine(p.conditions[i].expr, 0)
  }

  predicate Reached(ts: Toks, rest: Toks) {
    Consumed(ts, rest) && AllProper(rest)
  }

  lemma After(ts: Toks, b: Toks, c: Toks)
    requires Reached(ts, b) && Reached(b, c)
    ensures Reached(ts, c)
  {
    Then(ts, b, c);
  }

  lemma Advanced(ts: Toks)
    requires ts != [] && Advance(ts).Some? && AllProper(ts)
    ensures Reached(ts, Advance(ts).value)
  {
  }

  lemma Expected(ts: Toks, t: Token)
    requires Expect(ts, t).Some? && AllProper(ts)
    ensures Reached(ts, Expect(ts, t).value)
  {
  }

  lemma ReachedProper(ts: Toks, rest: Toks)
    requires Reached(ts, rest)
    ensures AllProper(rest) && Consumed(ts, rest)
  {
  }

  lemma Reaches(ts: Toks, rest: Toks)
    requires Consumed(ts, rest) && AllProper(rest)
    ensures Reached(ts, rest)
  {
  }

  // ---- Scopes ----

  lemma TargetImage(ts: Toks)
    requires AllProper(ts) && ParseTarget(ts).Some?
    ensures IsTarget(ParseTarget(ts).value.0) && Reached(ts, ParseTarget(ts).value.1)
  {
    hide TypeSoFar, ParseEntityRef, Consumed, AllProper;
    HeadProper(ts);
    AdvanceFine(ts);
    TypeStart(Head(ts));
    ImageEntityRef(ts[0].name, 1, Advance(ts).value, 0);
    Then(ts, Advance(ts).value, ParseTarget(ts).value.1);
  }

  lemma EntityIsTarget(n: Node)
    requires n.EntityRef? && RoundTrip.WellFormed(n)
    ensures IsTarget(n)
  {
  }

  lemma InTargetImage(v: Var, ts: Toks)
    requires AllProper(ts) && ParseInTarget(v, ts).Some?
    ensures var (n, rest) := ParseInTarget(v, ts).value;
      (IsTarget(n) || (v == Action && IsTargetSet(n))) && Reached(ts, rest)
  {
    hide ParseTarget, ParseSet, Consumed, AllProper, RoundTrip.IsTypeName;
    if v == Action && Head(ts) == LBracket {
      ImageSet(ts, 0, 0);
      var n := ParseInTarget(v, ts).value.0;
      forall i | 0 <= i < |n.elts| ensures IsTarget(n.elts[i]) {
        EntityIsTarget(n.elts[i]);
      }
    } else {
      TargetImage(ts);
    }
  }

  lemma IsTargetImage(ty: string, ts: Toks)
    requires AllProper(ts) && ParseIsTarget(ty, ts).Some? && RoundTrip.IsTypeName(ty)
    ensures forall v :: v != Action ==> IsScope(v, ParseIsTarget(ty, ts).value.0)
    ensures Reached(ts, ParseIsTarget(ty, ts).value.1)
  {
    hide ParseTarget, Advance, RoundTrip.IsTypeName, IsTarget, IsTargetSet;
    if Head(ts) == Oper(In) {
      Advanced(ts);
      var t1 := Advance(ts).value;
      TargetImage(t1);
      After(ts, t1, ParseTarget(t1).value.1);
    }
  }

  lemma ConstraintImage(v: Var, ts: Toks)
    requires AllProper(ts) && ParseConstraint(v, ts).Some?
    ensures IsScope(v, ParseConstraint(v, ts).value.0) && Reached(ts, ParseConstraint(v, ts).value.1)
  {
    if Head(ts) != Oper(Eq) && Head(ts) != Oper(In) && Head(ts) != KwIs {
      return;
    }
    hide ParseTarget, ParseInTarget, ParseIsTarget, ParseTypeName, Advance, RoundTrip.IsTypeName, IsTarget, IsTargetSet, Reached;
    Advanced(ts);
    var t1 := Advance(ts).value;
    ReachedProper(ts, t1);
    if Head(ts) == Oper(Eq) {
      TargetImage(t1);
      After(ts, t1, ParseTarget(t1).value.1);
    } else if Head(ts) == Oper(In) {
      InTargetImage(v, t1);
      After(ts, t1, ParseInTarget(v, t1).value.1);
    } else {
      ImageTypeName(t1);
      var (ty, t2) := ParseTypeName(t1).value;
      Reaches(t1, t2);
      After(ts, t1, t2);
      ReachedProper(ts, t2);
      IsTargetImage(ty, t2);
      After(ts, t2, ParseIsTarget(ty, t2).value.1);
    }
  }

  lemma ScopeImage(v: Var, ts: Toks)
    requires AllProper(ts) && ParseScope(v, ts).Some?
    ensures IsScope(v, ParseScope(v, ts).value.0) && Reached(ts, ParseScope(v, ts).value.1)
  {
    hide ParseConstraint, IsScope, Reached, Expect;
    Expected(ts, KwVar(v));
    var t1 := Expect(ts, KwVar(v)).value;
    ReachedProper(ts, t1);
    ConstraintImage(v, t1);
    After(ts, t1, ParseConstraint(v, t1).value.1);
  }

  lemma ScopesImage(ts: Toks)
    requires AllProper(ts) && ParseScopes(ts).Some?
    ensures var ((p, a, r), rest) := ParseScopes(ts).value;
      IsScope(Principal, p) && IsScope(Action, a) && IsScope(Resource, r) && Reached(ts, rest)
  {
    hide ParseScope, IsScope, Reached, Expect;
    Expected(ts, LParen);
    var t1 := Expect(ts, LParen).value;
    ReachedProper(ts, t1);
    ScopeImage(Principal, t1);
    var t2 := ParseScope(Principal, t1).value.1;
    After(ts, t1, t2);
    ReachedProper(ts, t2);
    Expected(t2, Comma);
    var t3 := Expect(t2, Comma).value;
    After(ts, t2, t3);
    ReachedProper(ts, t3);
    ScopeImage(Action, t3);
    var t4 := ParseScope(Action, t3).value.1;
    After(ts, t3, t4);
    ReachedProper(ts, t4);
    Expected(t4, Comma);
    var t5 := Expect(t4, Comma).value;
    After(ts, t4, t5);
    ReachedProper(ts, t5);
    ScopeImage(Resource, t5);
    var t6 := ParseScope(Resource, t5).value.1;
    After(ts, t5, t6);
    ReachedProper(ts, t6);
    Expected(t6, RParen);
    After(ts, t6, Expect(t6, RParen).value);
  }

  // ---- Conditions and annotations ----

  lemma ConditionImage(ts: Toks)
    requires AllProper(ts) && ts != [] && ParseCondition(ts).Some?
    ensures Fine(ParseCondition(ts).value.0.expr, 0) && Reached(ts, ParseCondition(ts).value.1)
  {
    hide ParseExpr, Fine, Reached, Expect, Advance;
    Advanced(ts);
    var t1 := Advance(ts).value;
    ReachedProper(ts, t1);
    Expected(t1, LBrace);
    var t2 := Expect(t1, LBrace).value;
    After(ts, t1, t2);
    ReachedProper(ts, t2);
    ImageExpr(t2, 0, 0);
    var t3 := ParseExpr(t2, 0, 0).value.1;
    Reaches(t2, t3);
    After(ts, t2, t3);
    ReachedProper(ts, t3);
    Expected(t3, RBrace);
    After(ts, t3, Expect(t3, RBrace).value);
  }

  lemma {:induction false} ConditionsImage(conds: seq<Condition>, ts: Toks)
    requires AllProper(ts) && ParseConditions(conds, ts).Some?
    requires |conds| <= MAX_CONDITIONS && forall i :: 0 <= i < |conds| ==> Fine(conds[i].expr, 0)
    ensures var (all, rest) := ParseConditions(conds, ts).value;
      |all| <= MAX_CONDITIONS && (forall i :: 0 <= i < |all| ==> Fine(all[i].expr, 0)) && Reached(ts, rest)
    decreases |ts|
  {
    hide ParseCondition, Fine, Reached;
    if !StartsCondition(Head(ts)) {
      Stay(ts);
      Reaches(ts, ts);
    } else {
      ConditionImage(ts);
      var (c, t1) := ParseCondition(ts).value;
      ReachedProper(ts, t1);
      ConditionsImage(conds + [c], t1);
      After(ts, t1, ParseConditions(conds, ts).value.1);
    }
  }

  lemma AnnotationImage(ts: Toks)
    requires AllProper(ts) && ts != [] && ParseAnnotation(ts).Some?
    ensures Printer.IsPlainName(ParseAnnotation(ts).value.0.key) && Reached(ts, ParseAnnotation(ts).value.1)
  {
    hide Reached, Expect, Advance, Printer.IsPlainName, ExtName, Proper, PlainString;
    Advanced(ts);
    var t1 := Advance(ts).value;
    ReachedProper(ts, t1);
    HeadProper(t1);
    NamePlain(Head(t1));
    Advanced(t1);
    var t2 := Advance(t1).value;
    After(ts, t1, t2);
    if Head(t2) == LParen {
      ReachedProper(ts, t2);
      ValueImage(ts, t2);
    }
  }

  lemma ValueImage(ts: Toks, t2: Toks)
    requires Reached(ts, t2) && Head(t2) == LParen && Advance(t2).Some? && PlainString(Head(Advance(t2).value)).Some?
    requires var t3 := Advance(t2).value; Advance(t3).Some? && Expect(Advance(t3).value, RParen).Some?
    ensures Reached(ts, Expect(Advance(Advance(t2).value).value, RParen).value)
  {
    hide Reached, Expect, Advance;
    ReachedProper(ts, t2);
    Advanced(t2);
    var t3 := Advance(t2).value;
    After(ts, t2, t3);
    ReachedProper(ts, t3);
    Advanced(t3);
    var t4 := Advance(t3).value;
    After(ts, t3, t4);
    ReachedProper(ts, t4);
    Expected(t4, RParen);
    After(ts, t4, Expect(t4, RParen).value);
  }

  lemma {:induction false} AnnotationsImage(anns: seq<Annotation>, ts: Toks)
    requires AllProper(ts) && ParseAnnotations(anns, ts).Some?
    requires |anns| <= MAX_ANNOTATIONS && DistinctAnnotations(anns)
    requires forall i :: 0 <= i < |anns| ==> Printer.IsPlainName(anns[i].key)
    ensures var (all, rest) := ParseAnnotations(anns, ts).value;
      |all| <= MAX_ANNOTATIONS && DistinctAnnotations(all) && Reached(ts, rest)
      && forall i :: 0 <= i < |all| ==> Printer.IsPlainName(all[i].key)
    decreases |ts|
  {
    hide ParseAnnotation, Printer.IsPlainName, Reached;
    if Head(ts) != At {
      Stay(ts);
      Reaches(ts, ts);
    } else {
      AnnotationImage(ts);
      var (a, t1) := ParseAnnotation(ts).value;
      ReachedProper(ts, t1);
      assert DistinctAnnotations(anns + [a]);
      AnnotationsImage(anns + [a], t1);
      After(ts, t1, ParseAnnotations(anns, ts).value.1);
    }
  }

  // ---- Policies ----

  lemma PolicyImage(anns: seq<Annotation>, ts: Toks)
    requires AllProper(ts) && ts != [] && ParsePolicy(anns, ts).Some?
    requires |anns| <= MAX_ANNOTATIONS && DistinctAnnotations(anns)
    requires forall i :: 0 <= i < |anns| ==> Printer.IsPlainName(anns[i].key)
    ensures IsParsed(ParsePolicy(anns, ts).value.0) && Reached(ts, ParsePolicy(anns, ts).value.1)
  {
    hide ParseScopes, ParseConditions, Reached, Advance, Expect, Printer.IsPlainName, Fine, IsScope;
    Advanced(ts);
    var t1 := Advance(ts).value;
    ReachedProper(ts, t1);
    ScopesImage(t1);
    var t2 := ParseScopes(t1).value.1;
    After(ts, t1, t2);
    ReachedProper(ts, t2);
    ConditionsImage([], t2);
    var t3 := ParseConditions([], t2).value.1;
    After(ts, t2, t3);
    ReachedProper(ts, t3);
    Expected(t3, Semicolon);
    After(ts, t3, Expect(t3, Semicolon).value);
  }

  lemma AnnotatedImage(ts: Toks)
    requires AllProper(ts) && ts != [] && ParseAnnotated(ts).Some?
    ensures IsParsed(ParseAnnotated(ts).value.0) && Reached(ts, ParseAnnotated(ts).value.1)
  {
    hide ParseAnnotations, ParsePolicy, Reached, IsParsed;
    AnnotationsImage([], ts);
    var (anns, t1) := ParseAnnotations([], ts).value;
    ReachedProper(ts, t1);
    PolicyImage(anns, t1);
    After(ts, t1, ParsePolicy(anns, t1).value.1);
  }

  lemma {:induction false} PoliciesImage(ps: seq<Policy>, ts: Toks)
    requires AllProper(ts) && ParsePolicies(ps, ts).Some?
    requires |ps| <= MAX_POLICIES && forall i :: 0 <= i < |ps| ==> IsParsed(ps[i])
    ensures var all := ParsePolicies(ps, ts).value;
      |all| <= MAX_POLICIES && forall i :: 0 <= i < |all| ==> IsParsed(all[i])
    ensures Consumed(ts, []) && !Head(ts).ErrorToken?
    decreases |ts|
  {
    hide ParseAnnotated, IsParsed, Reached;
    HeadProper(ts);
    if ts != [] {
      AnnotatedImage(ts);
      var (p, t1) := ParseAnnotated(ts).value;
      ReachedProper(ts, t1);
      PoliciesImage(ps + [p], t1);
      Then(ts, t1, []);
    }
  }

  // ---- Texts ----

  lemma NameProper(name: string)
    requires Lexer.IsName(name)
    ensures Proper(Lexer.NameToken(name))
  {
  }

  lemma TokenProper(s: string)
    requires s != ""
    ensures Proper(LexToken(s).0)
  {
    hide Lexer.NameToken, DigitSpan;
    if s[0] == '"' {
    } else if !IsDigit(s[0]) && Lexer.IsNameStart(s[0]) {
      NameProper(s[..NameSpan(s, 0)]);
    }
  }

  lemma {:induction false} LexProper(s: string)
    ensures AllProper(Lex(s))
    decreases |s|
  {
    hide LexToken, Proper;
    var t := Trim(s);
    if t != "" {
      TokenProper(t);
      LexProper(LexToken(t).1);
    }
  }

  /** An accepted text was read to its end, has no error token, and gives policies within all the limits of the parser. */
  lemma AcceptedText(s: string)
    requires ParsePolicySet(Lex(s)).Some?
    ensures Consumed(Lex(s), [])
    ensures forall i :: 0 <= i < |Lex(s)| ==> !Lex(s)[i].ErrorToken?
    ensures var ps := ParsePolicySet(Lex(s)).value;
      |ps| <= MAX_POLICIES && forall i :: 0 <= i < |ps| ==> IsParsed(ps[i])
  {
    hide IsParsed, ParsePolicies;
    LexProper(s);
    PoliciesImage([], Lex(s));
  }

  lemma ScopeWritten(v: Var, s: Scope)
    requires IsScope(v, s)
    ensures Decision.WrittenScope(s)
  {
    hide RoundTrip.IsTypeName;
  }

  /** Every accepted text decides as its policies do with their scopes written as conditions. */
  lemma AcceptedUnscoped(s: string, env: Semantics.Env)
    requires ParsePolicySet(Lex(s)).Some?
    ensures var ps := ParsePolicySet(Lex(s)).value;
      Decision.Allowed(Decision.UnscopedAll(ps), env, Semantics.Unlimited) == Decision.Allowed(ps, env, Semantics.Unlimited)
  {
    hide ParsePolicySet, Decision.Allowed, IsScope, Decision.WrittenScope;
    AcceptedText(s);
    var ps := ParsePolicySet(Lex(s)).value;
    forall p | p in ps ensures Decision.Written(p) {
      var i :| 0 <= i < |ps| && ps[i] == p;
      assert IsParsed(ps[i]);
      ScopeWritten(Principal, p.principal);
      ScopeWritten(Action, p.action);
      ScopeWritten(Resource, p.resource);
    }
    Decision.UnscopedDecision(ps, env);
  }

  /**
   * What an accepted text parses to is what the printed text of the result parses to, exactly if the
   * conditions keep the limits when printed with minimal parentheses; otherwise that text is rejected.
   */
  lemma Normalizes(s: string)
    requires ParsePolicySet(Lex(s)).Some?
    ensures var ps := ParsePolicySet(Lex(s)).value;
      ParsePolicySet(Lex(PolicyText(ps))) ==
      if forall i :: 0 <= i < |ps| ==> ConditionsFit(ps[i].conditions) then Some(ps) else None
  {
    hide ParsePolicySet, PolicyText, ConditionsFit, DistinctAnnotations;
    AcceptedText(s);
    var ps := ParsePolicySet(Lex(s)).value;
    forall i | 0 <= i < |ps| ensures IsPolicy(ps[i]) && (PolicyFits(ps[i]) <==> ConditionsFit(ps[i].conditions)) {
      ParsedIsPolicy(ps[i]);
    }
    PolicyTextRoundTrip(ps);
  }

  lemma ParsedIsPolicy(p: Policy)
    requires IsParsed(p)
    ensures IsPolicy(p) && (PolicyFits(p) <==> ConditionsFit(p.conditions))
  {
    hide Printer.IsPlainName, RoundTrip.WellFormed, DistinctAnnotations, ConditionsFit, IsScope;
  }

  // ---- Printed policies as text ----

  lemma {:induction false} ConstraintRenderable(v: Var, s: Scope, k: Toks)
    requires IsScope(v, s) && Rendering.AllRenderable(k)
    ensures Rendering.AllRenderable(PrintConstraint(s, k))
  {
    hide Printer.Raw, Printer.TypeTokens, Printer.Segments;
    match s {
      case AnyEntity =>
      case EqTo(n) =>
        Rendering.RawRenderable(n, k);
      case InTo(n) =>
        TargetWellFormed(n);
        Rendering.RawRenderable(n, k);
      case IsType(ty) =>
        Rendering.TypeRenderable(Printer.Segments(ty), k);
      case IsTypeIn(ty, n) =>
        Rendering.RawRenderable(n, k);
        Rendering.TypeRenderable(Printer.Segments(ty), [Oper(In)] + Printer.Raw(n, k));
    }
  }

  lemma TargetWellFormed(n: Node)
    requires IsTarget(n) || IsTargetSet(n)
    ensures RoundTrip.WellFormed(n)
  {
    hide RoundTrip.IsTypeName;
    if IsTargetSet(n) {
      forall i | 0 <= i < |n.elts| ensures RoundTrip.WellFormed(n.elts[i]) {
        assert IsTarget(n.elts[i]);
      }
    }
  }

  lemma ScopesRenderable(p: Policy, k: Toks)
    requires IsScope(Principal, p.principal) && IsScope(Action, p.action) && IsScope(Resource, p.resource)
    requires Rendering.AllRenderable(k)
    ensures Rendering.AllRenderable(PrintScopes(p, k))
  {
    hide PrintConstraint, IsScope;
    ConstraintRenderable(Resource, p.resource, [RParen] + k);
    var k2 := [Comma] + PrintScope(Resource, p.resource, [RParen] + k);
    ConstraintRenderable(Action, p.action, k2);
    ConstraintRenderable(Principal, p.principal, [Comma] + PrintScope(Action, p.action, k2));
  }

  lemma {:induction false} ConditionsRenderable(conds: seq<Condition>, k: Toks)
    requires Rendering.AllRenderable(k) && ProperConditions(conds)
    ensures Rendering.AllRenderable(PrintConditions(conds, k))
    decreases |conds|
  {
    hide Printer.Print, RoundTrip.Fits, RoundTrip.WellFormed;
    if conds != [] {
      var k' := PrintConditions(conds[1..], k);
      ConditionsRenderable(conds[1..], k);
      Rendering.PrintRenderable(conds[0].expr, Printer.EXPR, [RBrace] + k');
    }
  }

  lemma {:induction false} AnnotationsRenderable(anns: seq<Annotation>, k: Toks)
    requires Rendering.AllRenderable(k) && ProperKeys(anns)
    ensures Rendering.AllRenderable(PrintAnnotations(anns, k))
    decreases |anns|
  {
    hide Printer.IsPlainName, Lexer.NameToken, Printer.StrToken;
    if anns != [] {
      AnnotationsRenderable(anns[1..], k);
      Rendering.NameRenderable(anns[0].key);
      Rendering.StrRenderable(anns[0].value);
    }
  }

  lemma {:induction false} PoliciesRenderable(ps: seq<Policy>)
    requires forall i :: 0 <= i < |ps| ==> IsPolicy(ps[i])
    ensures Rendering.AllRenderable(PrintPolicies(ps))
    decreases |ps|
  {
    hide PrintScopes, PrintConditions, PrintAnnotations, IsScope, ProperConditions, ProperKeys;
    if ps != [] {
      var p, k := ps[0], PrintPolicies(ps[1..]);
      PoliciesRenderable(ps[1..]);
      ConditionsRenderable(p.conditions, [Semicolon] + k);
      ScopesRenderable(p, PrintConditions(p.conditions, [Semicolon] + k));
      AnnotationsRenderable(p.annotations, PrintBody(p, k));
    }
  }

  /** The text of a policy set. */
  function PolicyText(ps: seq<Policy>): string {
    Rendering.Render(PrintPolicies(ps))
  }

  /** Tokenizing and parsing the text of a policy set gives it back, or nothing if it exceeds the limits. */
  lemma PolicyTextRoundTrip(ps: seq<Policy>)
    requires forall i :: 0 <= i < |ps| ==> IsPolicy(ps[i])
    ensures ParsePolicySet(Lex(PolicyText(ps))) == if PoliciesFit(ps) then Some(ps) else None
  {
    hide IsPolicy, ParsePolicySet, PrintPolicies, Lex, Rendering.Render;
    PoliciesRenderable(ps);
    Rendering.LexRendered(PrintPolicies(ps));
    ParsePrintPolicies(ps);
  }
}
