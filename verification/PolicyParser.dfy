/**
 * The policy parser in the source's form: the token cursor of class Parser, shared by all functions,
 * and arrays that grow inside loops. Every method is proved to compute the function of the same name
 * in PolicyGrammar.
 */
module PolicyParser {
  import opened Common
  import opened Syntax
  import G = Grammar
  import PG = PolicyGrammar
  import P = Parser
  import Scanner

  /** Between policy parts both nesting counters are back at zero. */
  ghost predicate Ready(p: P.Parser)
    reads p
  {
    p.Valid() && p.depth == 0 && p.recDepth == 0
  }

  /** nxe_cedar_parse_entity_ref_target. */
  method ParseTarget(p: P.Parser) returns (r: Option<Node>)
    requires Ready(p) && !p.error
    modifies p
    ensures Ready(p) && p.pos >= old(p.pos)
    ensures p.Agrees(PG.ParseTarget(old(p.Rest())), r)
  {
    hide G.ParseEntityRef;
    if !p.Current().Ident? {
      p.error := true;
      return None;
    }
    var name := p.Current().name;
    p.Advance();
    r := p.ParseEntityRef(name);
  }

  /** nxe_cedar_parse_entity_or_set for actions, with the check of the set's elements. */
  method ParseInTarget(p: P.Parser, v: Var) returns (r: Option<Node>)
    requires Ready(p) && !p.error
    modifies p
    ensures Ready(p) && p.pos >= old(p.pos)
    ensures p.Agrees(PG.ParseInTarget(v, old(p.Rest())), r)
  {
    hide G.ParseSet, PG.ParseTarget;
    if v != Action || p.Current() != LBracket {
      r := ParseTarget(p);
      return;
    }
    r := p.ParseSet();
    if p.error {
      return;
    }
    var elts := r.value.elts;
    var i := 0;
    while i < |elts|
      invariant 0 <= i <= |elts| && forall j :: 0 <= j < i ==> elts[j].EntityRef?
    {
      if !elts[i].EntityRef? {
        p.error := true;
        return None;
      }
      i := i + 1;
    }
  }

  /** nxe_cedar_parse_scope. */
  method ParseScope(p: P.Parser, v: Var) returns (r: Option<Scope>)
    requires Ready(p) && !p.error
    modifies p
    ensures Ready(p) && p.pos >= old(p.pos)
    ensures p.Agrees(PG.ParseScope(v, old(p.Rest())), r)
  {
    hide PG.ParseTarget, PG.ParseInTarget, G.ParseTypeName, PG.ParseIsTarget;
    p.Expect(KwVar(v));
    if p.error {
      return None;
    }
    var n;
    if p.Current() == Oper(Eq) {
      p.Advance();
      if p.error {
        return None;
      }
      n := ParseTarget(p);
      r := if p.error then None else Some(EqTo(n.value));
    } else if p.Current() == Oper(In) {
      p.Advance();
      if p.error {
        return None;
      }
      n := ParseInTarget(p, v);
      r := if p.error then None else Some(InTo(n.value));
    } else if p.Current() == KwIs {
      if v == Action {
        p.error := true;
        return None;
      }
      p.Advance();
      if p.error {
        return None;
      }
      var ty := p.ParseTypeName();
      if p.error {
        return None;
      }
      r := ParseIsTarget(p, ty.value);
    } else {
      r := Some(AnyEntity);
    }
  }

  method ParseIsTarget(p: P.Parser, ty: string) returns (r: Option<Scope>)
    requires Ready(p) && !p.error
    modifies p
    ensures Ready(p) && p.pos >= old(p.pos)
    ensures p.Agrees(PG.ParseIsTarget(ty, old(p.Rest())), r)
  {
    hide PG.ParseTarget;
    if p.Current() != Oper(In) {
      return Some(IsType(ty));
    }
    p.Advance();
    if p.error {
      return None;
    }
    var n := ParseTarget(p);
    r := if p.error then None else Some(IsTypeIn(ty, n.value));
  }

  /** nxe_cedar_parse_condition. */
  method ParseCondition(p: P.Parser) returns (r: Option<Condition>)
    requires Ready(p) && !p.error && PG.StartsCondition(p.Current())
    modifies p
    ensures Ready(p) && p.pos >= old(p.pos)
    ensures p.Agrees(PG.ParseCondition(old(p.Rest())), r)
  {
    hide G.ParseExpr, G.Advance, G.Expect;
    var isUnless := p.Current() == KwUnless;
    p.Advance();
    if p.error {
      return None;
    }
    p.Expect(LBrace);
    if p.error {
      return None;
    }
    var e := p.ParseExpr();
    if p.error {
      return None;
    }
    p.Expect(RBrace);
    r := if p.error then None else Some(Condition(isUnless, e.value));
  }

  method ParseConditions(p: P.Parser) returns (r: Option<seq<Condition>>)
    requires Ready(p) && !p.error
    modifies p
    ensures Ready(p) && p.pos >= old(p.pos)
    ensures p.Agrees(PG.ParseConditions([], old(p.Rest())), r)
  {
    hide PG.ParseCondition;
    var conds: seq<Condition> := [];
    var nconds := 0;
    while p.Current() == KwWhen || p.Current() == KwUnless
      invariant Ready(p) && !p.error && old(p.pos) <= p.pos && nconds == |conds|
      invariant PG.ParseConditions([], old(p.Rest())) == PG.ParseConditions(conds, p.Rest())
      decreases |p.input| - p.pos
    {
      nconds := nconds + 1;
      if nconds > PG.MAX_CONDITIONS {
        p.error := true;
        return None;
      }
      var c := ParseCondition(p);
      if p.error {
        return None;
      }
      conds := conds + [c.value];
    }
    return Some(conds);
  }

  /** One round of the loop of nxe_cedar_parse_annotations, before the duplicate check. */
  method ParseAnnotation(p: P.Parser) returns (r: Option<Annotation>)
    requires Ready(p) && !p.error && p.Current() == At
    modifies p
    ensures Ready(p) && p.pos >= old(p.pos)
    ensures p.Agrees(PG.ParseAnnotation(old(p.Rest())), r)
  {
    hide G.Advance, PG.ParseAnnotationValue, ExtName;
    p.Advance();
    if p.error || G.IdentName(p.Current()).None? {
      p.error := true;
      return None;
    }
    var key := G.IdentName(p.Current()).value;
    p.Advance();
    if p.error {
      return None;
    }
    if p.Current() != LParen {
      return Some(Annotation(key, ""));
    }
    r := ParseAnnotationValue(p, key);
  }

  method ParseAnnotationValue(p: P.Parser, key: string) returns (r: Option<Annotation>)
    requires Ready(p) && !p.error && p.Current() == LParen
    modifies p
    ensures Ready(p) && p.pos >= old(p.pos)
    ensures p.Agrees(PG.ParseAnnotationValue(key, old(p.Rest())), r)
  {
    hide G.Advance, G.Expect, G.PlainString;
    p.Advance();
    if p.error {
      return None;
    }
    var value := p.ConsumeAttrNameString();
    if p.error {
      return None;
    }
    p.Expect(RParen);
    r := if p.error then None else Some(Annotation(key, value.value));
  }

  method ParseAnnotations(p: P.Parser) returns (r: Option<seq<Annotation>>)
    requires Ready(p) && !p.error
    modifies p
    ensures Ready(p) && p.pos >= old(p.pos)
    ensures p.Agrees(PG.ParseAnnotations([], old(p.Rest())), r)
  {
    hide PG.ParseAnnotation;
    var anns: seq<Annotation> := [];
    var count := 0;
    while p.Current() == At
      invariant Ready(p) && !p.error && old(p.pos) <= p.pos && count == |anns|
      invariant PG.ParseAnnotations([], old(p.Rest())) == PG.ParseAnnotations(anns, p.Rest())
      decreases |p.input| - p.pos
    {
      count := count + 1;
      if count > PG.MAX_ANNOTATIONS {
        p.error := true;
        return None;
      }
      var a := ParseAnnotation(p);
      if p.error {
        return None;
      }
      var i := 0;
      while i < |anns|
        invariant 0 <= i <= |anns| && forall j :: 0 <= j < i ==> anns[j].key != a.value.key
      {
        if anns[i].key == a.value.key {
          p.error := true;
          return None;
        }
        i := i + 1;
      }
      anns := anns + [a.value];
    }
    return Some(anns);
  }

  method ParseScopes(p: P.Parser) returns (r: Option<(Scope, Scope, Scope)>)
    requires Ready(p) && !p.error
    modifies p
    ensures Ready(p) && p.pos >= old(p.pos)
    ensures p.Agrees(PG.ParseScopes(old(p.Rest())), r)
  {
    hide PG.ParseScope, G.Expect;
    p.Expect(LParen);
    if p.error {
      return None;
    }
    var principal := ParseScope(p, Principal);
    if p.error {
      return None;
    }
    p.Expect(Comma);
    if p.error {
      return None;
    }
    var action := ParseScope(p, Action);
    if p.error {
      return None;
    }
    p.Expect(Comma);
    if p.error {
      return None;
    }
    var resource := ParseScope(p, Resource);
    if p.error {
      return None;
    }
    p.Expect(RParen);
    r := if p.error then None else Some((principal.value, action.value, resource.value));
  }

  /** nxe_cedar_parse_policy. */
  method ParsePolicy(p: P.Parser, anns: seq<Annotation>) returns (r: Option<Policy>)
    requires Ready(p) && !p.error && PG.IsEffect(p.Current())
    modifies p
    ensures Ready(p) && p.pos >= old(p.pos)
    ensures p.Agrees(PG.ParsePolicy(anns, old(p.Rest())), r)
  {
    hide PG.ParseScopes, PG.ParseConditions, G.Advance, G.Expect;
    var isForbid := p.Current() == KwForbid;
    p.Advance();
    if p.error {
      return None;
    }
    var scopes := ParseScopes(p);
    if p.error {
      return None;
    }
    var conds := ParseConditions(p);
    if p.error {
      return None;
    }
    p.Expect(Semicolon);
    if p.error {
      return None;
    }
    var (principal, action, resource) := scopes.value;
    return Some(Policy(isForbid, anns, principal, action, resource, conds.value));
  }

  /** nxe_cedar_parse: the policies of a text, given its tokens. */
  method ParsePolicySet(tokens: seq<Token>) returns (r: Option<seq<Policy>>)
    ensures r == PG.ParsePolicySet(tokens)
  {
    hide PG.ParseAnnotations, PG.ParsePolicy;
    var p := new P.Parser(tokens);
    if p.error {
      return None;
    }
    var ps: seq<Policy> := [];
    while PG.IsEffect(p.Current()) || p.Current() == At
      invariant Ready(p) && !p.error && fresh(p)
      invariant PG.ParsePolicies([], tokens) == PG.ParsePolicies(ps, p.Rest())
      decreases |p.input| - p.pos
    {
      if |ps| >= PG.MAX_POLICIES {
        return None;
      }
      var anns := ParseAnnotations(p);
      if p.error || !PG.IsEffect(p.Current()) {
        return None;
      }
      var policy := ParsePolicy(p, anns.value);
      if p.error {
        return None;
      }
      ps := ps + [policy.value];
    }
    r := if p.Current() == Eof then Some(ps) else None;
  }

  /** nxe_cedar_parse, from the text. */
  method ParseText(text: string) returns (r: Option<seq<Policy>>)
    ensures r == PG.ParsePolicySet(Scanner.Lex(text))
  {
    hide PG.ParsePolicySet, Scanner.Lex;
    var tokens := Scanner.Tokenize(text);
    r := ParsePolicySet(tokens);
  }
}
