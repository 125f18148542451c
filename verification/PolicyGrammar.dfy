/**
 * Policies on the tokens still to come: annotations, scopes, conditions and the policy set
 * (nxe_cedar_parse and the functions it calls above the level of expressions).
 */
module PolicyGrammar {
  import opened Common
  import opened Syntax
  import opened Grammar

  const MAX_POLICIES := 256
  const MAX_CONDITIONS := 16
  const MAX_ANNOTATIONS := 16

  /** An entity reference. */
  function ParseTarget(ts: Toks): (r: Option<(Node, Toks)>)
    ensures r.Some? ==> |r.value.1| < |ts| && r.value.0.EntityRef?
  {
    if !Head(ts).Ident? then None else
    var t1 :- Advance(ts);
    ParseEntityRef(ts[0].name, 1, t1)
  }

  /** What may follow `in`: only an action can be in a set, and only in a set of entity references. */
  function ParseInTarget(v: Var, ts: Toks): (r: Option<(Node, Toks)>)
    ensures r.Some? ==> |r.value.1| < |ts|
  {
    if v == Action && Head(ts) == LBracket then
      var (n, t1) :- ParseSet(ts, 0, 0);
      if forall i :: 0 <= i < |n.elts| ==> n.elts[i].EntityRef? then Some((n, t1)) else None
    else ParseTarget(ts)
  }

  function ParseScope(v: Var, ts: Toks): (r: Option<(Scope, Toks)>)
    ensures r.Some? ==> |r.value.1| < |ts|
  {
    var t1 :- Expect(ts, KwVar(v));
    ParseConstraint(v, t1)
  }

  /** What follows the variable of a scope. */
  function ParseConstraint(v: Var, ts: Toks): (r: Option<(Scope, Toks)>)
    ensures r.Some? ==> |r.value.1| <= |ts|
  {
    if Head(ts) == Oper(Eq) then
      var t1 :- Advance(ts);
      var (n, t2) :- ParseTarget(t1);
      Some((EqTo(n), t2))
    else if Head(ts) == Oper(In) then
      var t1 :- Advance(ts);
      var (n, t2) :- ParseInTarget(v, t1);
      Some((InTo(n), t2))
    else if Head(ts) == KwIs then
      if v == Action then None else
      var t1 :- Advance(ts);
      var (ty, t2) :- ParseTypeName(t1);
      ParseIsTarget(ty, t2)
    else Some((AnyEntity, ts))
  }

  /** What follows `is T`. */
  function ParseIsTarget(ty: string, ts: Toks): (r: Option<(Scope, Toks)>)
    ensures r.Some? ==> |r.value.1| <= |ts|
  {
    if Head(ts) != Oper(In) then Some((IsType(ty), ts)) else
    var t1 :- Advance(ts);
    var (n, t2) :- ParseTarget(t1);
    Some((IsTypeIn(ty, n), t2))
  }

  predicate StartsCondition(t: Token) {
    t == KwWhen || t == KwUnless
  }

  function ParseCondition(ts: Toks): (r: Option<(Condition, Toks)>)
    requires ts != []
    ensures r.Some? ==> |r.value.1| < |ts|
  {
    var t1 :- Advance(ts);
    var t2 :- Expect(t1, LBrace);
    var (e, t3) :- ParseExpr(t2, 0, 0);
    var t4 :- Expect(t3, RBrace);
    Some((Condition(ts[0] == KwUnless, e), t4))
  }

  function ParseConditions(conds: seq<Condition>, ts: Toks): (r: Option<(seq<Condition>, Toks)>)
    ensures r.Some? ==> |r.value.1| <= |ts|
    decreases |ts|
  {
    if !StartsCondition(Head(ts)) then Some((conds, ts))
    else if |conds| + 1 > MAX_CONDITIONS then None
    else
      var (c, t1) :- ParseCondition(ts);
      ParseConditions(conds + [c], t1)
  }

  /** `@key` or `@key("value")`; a missing value is empty. */
  function ParseAnnotation(ts: Toks): (r: Option<(Annotation, Toks)>)
    requires ts != []
    ensures r.Some? ==> |r.value.1| < |ts|
  {
    var t1 :- Advance(ts);
    var key :- IdentName(Head(t1));
    var t2 :- Advance(t1);
    if Head(t2) == LParen then ParseAnnotationValue(key, t2) else Some((Annotation(key, ""), t2))
  }

  function ParseAnnotationValue(key: string, ts: Toks): (r: Option<(Annotation, Toks)>)
    requires ts != []
    ensures r.Some? ==> |r.value.1| < |ts|
  {
    var t1 :- Advance(ts);
    var value :- PlainString(Head(t1));
    var t2 :- Advance(t1);
    var t3 :- Expect(t2, RParen);
    Some((Annotation(key, value), t3))
  }

  predicate HasAnnotation(anns: seq<Annotation>, key: string) {
    exists i :: 0 <= i < |anns| && anns[i].key == key
  }

  function ParseAnnotations(anns: seq<Annotation>, ts: Toks): (r: Option<(seq<Annotation>, Toks)>)
    ensures r.Some? ==> |r.value.1| <= |ts|
    decreases |ts|
  {
    if Head(ts) != At then Some((anns, ts))
    else if |anns| + 1 > MAX_ANNOTATIONS then None
    else
      var (a, t1) :- ParseAnnotation(ts);
      if HasAnnotation(anns, a.key) then None else ParseAnnotations(anns + [a], t1)
  }

  predicate IsEffect(t: Token) {
    t == KwPermit || t == KwForbid
  }

  /** The head of a policy: `( principal.., action.., resource.. )`. */
  function ParseScopes(ts: Toks): (r: Option<((Scope, Scope, Scope), Toks)>)
    ensures r.Some? ==> |r.value.1| < |ts|
  {
    var t1 :- Expect(ts, LParen);
    var (p, t2) :- ParseScope(Principal, t1);
    var t3 :- Expect(t2, Comma);
    var (a, t4) :- ParseScope(Action, t3);
    var t5 :- Expect(t4, Comma);
    var (r, t6) :- ParseScope(Resource, t5);
    var t7 :- Expect(t6, RParen);
    Some(((p, a, r), t7))
  }

  /** A policy from its effect on. */
  function ParsePolicy(anns: seq<Annotation>, ts: Toks): (r: Option<(Policy, Toks)>)
    requires ts != []
    ensures r.Some? ==> |r.value.1| < |ts|
  {
    var t1 :- Advance(ts);
    var ((p, a, r), t2) :- ParseScopes(t1);
    var (conds, t3) :- ParseConditions([], t2);
    var t4 :- Expect(t3, Semicolon);
    Some((Policy(ts[0] == KwForbid, anns, p, a, r, conds), t4))
  }

  function ParseAnnotated(ts: Toks): (r: Option<(Policy, Toks)>)
    requires ts != []
    ensures r.Some? ==> |r.value.1| < |ts|
  {
    var (anns, t1) :- ParseAnnotations([], ts);
    if !IsEffect(Head(t1)) then None else ParsePolicy(anns, t1)
  }

  /** The policies after those already read, up to the end of the text. */
  function ParsePolicies(ps: seq<Policy>, ts: Toks): Option<seq<Policy>>
    decreases |ts|
  {
    if IsEffect(Head(ts)) || Head(ts) == At then
      if |ps| >= MAX_POLICIES then None else
      var (p, t1) :- ParseAnnotated(ts);
      ParsePolicies(ps + [p], t1)
    else if Head(ts) == Eof then Some(ps)
    else None
  }

  /** The policies of a text, given all its tokens. */
  function ParsePolicySet(ts: Toks): Option<seq<Policy>> {
    ParsePolicies([], ts)
  }
}
