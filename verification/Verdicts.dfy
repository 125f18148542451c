/**
 * What a decision means, written out: scopes, `when` and `unless` clauses, and the priority of forbid.
 */
module Verdicts {
  import opened Syntax
  import opened Values
  import opened Semantics
  import opened Decision
  import opened Membership
  import Operators

  // ---- Clauses ----

  /** `when` holds for true, `unless` for false, and neither for anything else. */
  lemma ClauseMeans(e: Node, env: Env, b: Budget)
    ensures ConditionMatches(Condition(false, e), env, b) <==> Eval(e, env, b) == BoolV(true)
    ensures ConditionMatches(Condition(true, e), env, b) <==> Eval(e, env, b) == BoolV(false)
  {
    hide Eval;
  }

  /** `unless { e }` is `when { !e }`. */
  lemma UnlessIsWhenNot(e: Node, env: Env)
    ensures ConditionMatches(Condition(true, e), env, Unlimited) <==> ConditionMatches(Condition(false, Not(e)), env, Unlimited)
  {
    Operators.Logic(e, e, env, Unlimited);
    ClauseMeans(e, env, Unlimited);
    ClauseMeans(Not(e), env, Unlimited);
    hide Eval, ConditionMatches;
    var v := Eval(e, env, Unlimited);
    assert v.BoolV? ==> v == BoolV(true) || v == BoolV(false);
  }

  /** The clause without `unless`. */
  function Positive(c: Condition): Condition {
    if c.isUnless then Condition(false, Not(c.expr)) else c
  }

  function PositiveAll(cs: seq<Condition>): (r: seq<Condition>)
    ensures |r| == |cs| && forall i :: 0 <= i < |cs| ==> r[i] == Positive(cs[i])
  {
    seq(|cs|, i requires 0 <= i < |cs| => Positive(cs[i]))
  }

  function PositivePolicies(ps: seq<Policy>): (r: seq<Policy>)
    ensures |r| == |ps| && forall i :: 0 <= i < |ps| ==> r[i] == ps[i].(conditions := PositiveAll(ps[i].conditions))
  {
    seq(|ps|, i requires 0 <= i < |ps| => ps[i].(conditions := PositiveAll(ps[i].conditions)))
  }

  lemma PositiveMatches(p: Policy, env: Env)
    ensures PolicyMatches(p.(conditions := PositiveAll(p.conditions)), env, Unlimited) <==> PolicyMatches(p, env, Unlimited)
  {
    hide ScopeMatches, ConditionMatches, Positive;
    var cs := PositiveAll(p.conditions);
    forall i | 0 <= i < |cs|
      ensures ConditionMatches(cs[i], env, Unlimited) <==> ConditionMatches(p.conditions[i], env, Unlimited)
    {
      PositiveClause(p.conditions[i], env);
    }
  }

  lemma PositiveClause(c: Condition, env: Env)
    ensures ConditionMatches(Positive(c), env, Unlimited) <==> ConditionMatches(c, env, Unlimited)
  {
    hide ConditionMatches;
    if c.isUnless {
      UnlessIsWhenNot(c.expr, env);
      assert c == Condition(true, c.expr);
    }
  }

  // ---- Policies and decisions ----

  /** When a policy applies to a request. */
  ghost predicate Applies(p: Policy, env: Env, b: Budget) {
    && Demands(p.principal, env.principal) && Demands(p.action, env.action) && Demands(p.resource, env.resource)
    && forall i :: 0 <= i < |p.conditions| ==> Eval(p.conditions[i].expr, env, b) == BoolV(!p.conditions[i].isUnless)
  }

  lemma AppliesIsMatches(p: Policy, env: Env, b: Budget)
    ensures PolicyMatches(p, env, b) <==> Applies(p, env, b)
  {
    hide ScopeMatches, Demands, ConditionMatches, Eval;
    ScopeMeans(p.principal, env.principal);
    ScopeMeans(p.action, env.action);
    ScopeMeans(p.resource, env.resource);
    forall i | 0 <= i < |p.conditions|
      ensures ConditionMatches(p.conditions[i], env, b) <==>
        Eval(p.conditions[i].expr, env, b) == BoolV(!p.conditions[i].isUnless)
    {
      var c := p.conditions[i];
      ClauseMeans(c.expr, env, b);
      assert c == Condition(c.isUnless, c.expr);
    }
  }

  /** A request is allowed exactly if some permit applies to it and no forbid does. */
  lemma AllowedMeans(ps: seq<Policy>, env: Env, b: Budget)
    ensures Allowed(ps, env, b) <==>
      (exists i :: 0 <= i < |ps| && !ps[i].isForbid && Applies(ps[i], env, b))
      && !(exists i :: 0 <= i < |ps| && ps[i].isForbid && Applies(ps[i], env, b))
  {
    FiresMeans(ps, false, env, b);
    FiresMeans(ps, true, env, b);
    hide Fires, Applies;
    if i :| 0 <= i < |ps| && ps[i].isForbid && Applies(ps[i], env, b) {
      assert ps[i].isForbid == true;
    }
    if i :| 0 <= i < |ps| && !ps[i].isForbid && Applies(ps[i], env, b) {
      assert ps[i].isForbid == false;
    }
  }

  lemma FiresMeans(ps: seq<Policy>, forbid: bool, env: Env, b: Budget)
    ensures Fires(ps, forbid, env, b) <==> exists i :: 0 <= i < |ps| && ps[i].isForbid == forbid && Applies(ps[i], env, b)
  {
    hide PolicyMatches, Applies;
    forall p: Policy ensures PolicyMatches(p, env, b) <==> Applies(p, env, b) {
      AppliesIsMatches(p, env, b);
    }
    if p :| p in ps && p.isForbid == forbid && PolicyMatches(p, env, b) {
      var i :| 0 <= i < |ps| && ps[i] == p;
      assert Applies(ps[i], env, b);
    }
    if i :| 0 <= i < |ps| && ps[i].isForbid == forbid && Applies(ps[i], env, b) {
      assert ps[i] in ps && PolicyMatches(ps[i], env, b);
    }
  }

  /** Writing every `unless { e }` as `when { !e }` changes no decision. */
  lemma UnlessDecision(ps: seq<Policy>, env: Env)
    ensures Allowed(PositivePolicies(ps), env, Unlimited) <==> Allowed(ps, env, Unlimited)
  {
    var qs := PositivePolicies(ps);
    hide Applies, PolicyMatches, Allowed, PositiveAll;
    forall i | 0 <= i < |ps|
      ensures qs[i].isForbid == ps[i].isForbid && (Applies(qs[i], env, Unlimited) <==> Applies(ps[i], env, Unlimited))
    {
      PositiveMatches(ps[i], env);
      AppliesIsMatches(ps[i], env, Unlimited);
      AppliesIsMatches(qs[i], env, Unlimited);
    }
    AllowedMeans(ps, env, Unlimited);
    AllowedMeans(qs, env, Unlimited);
  }

  /** A policy with that one clause and no scope. */
  function Only(isForbid: bool, c: Condition): Policy {
    Policy(isForbid, [], AnyEntity, AnyEntity, AnyEntity, [c])
  }

  /** On their own, a permit with `when { e }` allows exactly for true, one with `unless { e }` exactly for false. */
  lemma SinglePermit(e: Node, env: Env, b: Budget)
    ensures Allowed([Only(false, Condition(false, e))], env, b) <==> Eval(e, env, b) == BoolV(true)
    ensures Allowed([Only(false, Condition(true, e))], env, b) <==> Eval(e, env, b) == BoolV(false)
    ensures !Allowed([Only(true, Condition(false, e))], env, b)
  {
    hide Eval;
    forall c: Condition, forbid: bool
      ensures Applies(Only(forbid, c), env, b) <==> Eval(c.expr, env, b) == BoolV(!c.isUnless)
    {
      var p := Only(forbid, c);
      assert p.conditions[0] == c;
    }
    hide Applies, Allowed;
    AllowedMeans([Only(false, Condition(false, e))], env, b);
    AllowedMeans([Only(false, Condition(true, e))], env, b);
    AllowedMeans([Only(true, Condition(false, e))], env, b);
    assert [Only(false, Condition(false, e))][0] == Only(false, Condition(false, e));
    assert [Only(false, Condition(true, e))][0] == Only(false, Condition(true, e));
    assert [Only(true, Condition(false, e))][0] == Only(true, Condition(false, e));
  }
}
