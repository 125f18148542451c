/**
 * Deciding a request (nxe_cedar_eval_detail): scopes, conditions, the forbid pass, the permit pass, and
 * the list of deciding policies with its doubling buffer.
 */
module Decision {
  import opened Common
  import opened Syntax
  import opened Values
  import opened Semantics
  import Bounded
  import Machine

  // ---- When a policy matches ----

  /** nxe_cedar_scope_matches. */
  predicate ScopeMatches(scope: Scope, p: Party) {
    match scope
    case AnyEntity => true
    case IsType(ty) => p.ty == ty
    case IsTypeIn(ty, target) =>
      p.ty == ty && target.EntityRef? && InTarget(p.ty, p.id, p.parents, Ref(target.ty, target.id))
    case EqTo(target) => target.EntityRef? && Names(p, target.ty, target.id)
    case InTo(target) =>
      if target.EntityRef? then InTarget(p.ty, p.id, p.parents, Ref(target.ty, target.id))
      else if target.SetLit? then
        exists i :: 0 <= i < |target.elts| && ElementMatches(target.elts[i], p)
      else false
  }

  predicate ElementMatches(e: Node, p: Party) {
    e.EntityRef? && InTarget(p.ty, p.id, p.parents, Ref(e.ty, e.id))
  }

  /** nxe_cedar_condition_matches: an error or a non-Boolean never matches, not even `unless`. */
  ghost predicate ConditionMatches(c: Condition, env: Env, b: Budget) {
    Eval(c.expr, env, b) == BoolV(!c.isUnless)
  }

  ghost predicate PolicyMatches(p: Policy, env: Env, b: Budget) {
    && ScopeMatches(p.principal, env.principal)
    && ScopeMatches(p.action, env.action)
    && ScopeMatches(p.resource, env.resource)
    && AllMatch(p.conditions, env, b)
  }

  ghost predicate AllMatch(cs: seq<Condition>, env: Env, b: Budget) {
    forall i :: 0 <= i < |cs| ==> ConditionMatches(cs[i], env, b)
  }

  // ---- The decision ----

  /** Some policy of that effect matches. */
  ghost predicate Fires(ps: seq<Policy>, forbid: bool, env: Env, b: Budget) {
    exists p :: p in ps && p.isForbid == forbid && PolicyMatches(p, env, b)
  }

  /** Some permit matches and no forbid does. */
  ghost predicate Allowed(ps: seq<Policy>, env: Env, b: Budget) {
    Fires(ps, false, env, b) && !Fires(ps, true, env, b)
  }

  /** The positions from i on of the matching policies of that effect, in order. */
  ghost function Matching(ps: seq<Policy>, i: nat, forbid: bool, env: Env, b: Budget): seq<nat>
    requires i <= |ps|
    decreases |ps| - i
  {
    if i == |ps| then []
    else if ps[i].isForbid == forbid && PolicyMatches(ps[i], env, b) then [i] + Matching(ps, i + 1, forbid, env, b)
    else Matching(ps, i + 1, forbid, env, b)
  }

  /** The policies that decide: the matching forbids if there are any, or else the matching permits. */
  ghost function Deciding(ps: seq<Policy>, env: Env, b: Budget): seq<nat> {
    Matching(ps, 0, Fires(ps, true, env, b), env, b)
  }

  // ---- Properties of the decision ----

  /** The order of the policies does not matter. */
  lemma OrderIndependent(ps: seq<Policy>, ps': seq<Policy>, env: Env, b: Budget)
    requires multiset(ps) == multiset(ps')
    ensures Allowed(ps, env, b) == Allowed(ps', env, b)
  {
    assert forall p :: p in ps <==> p in multiset(ps);
    assert forall p :: p in ps' <==> p in multiset(ps');
  }

  /** A clause that errs keeps its policy from matching: a failing forbid forbids nothing. */
  lemma ErroredNeverMatches(p: Policy, i: nat, env: Env, b: Budget)
    requires i < |p.conditions| && Eval(p.conditions[i].expr, env, b).ErrorV?
    ensures !PolicyMatches(p, env, b)
  {
    assert !ConditionMatches(p.conditions[i], env, b);
  }

  /** Matching lists exactly the matching positions, in increasing order. */
  lemma {:induction false} MatchingExact(ps: seq<Policy>, i: nat, forbid: bool, env: Env, b: Budget)
    requires i <= |ps|
    ensures var m := Matching(ps, i, forbid, env, b);
      && (forall k: nat :: k in m <==> i <= k < |ps| && ps[k].isForbid == forbid && PolicyMatches(ps[k], env, b))
      && (forall x, y :: 0 <= x < y < |m| ==> m[x] < m[y])
    decreases |ps| - i
  {
    hide PolicyMatches;
    if i < |ps| {
      MatchingExact(ps, i + 1, forbid, env, b);
      var m := Matching(ps, i + 1, forbid, env, b);
      forall y | 0 <= y < |m| ensures m[y] > i {
        assert m[y] in m;
      }
    }
  }

  lemma FiresIffMatching(ps: seq<Policy>, forbid: bool, env: Env, b: Budget)
    ensures Fires(ps, forbid, env, b) <==> Matching(ps, 0, forbid, env, b) != []
  {
    hide PolicyMatches;
    MatchingExact(ps, 0, forbid, env, b);
    var m := Matching(ps, 0, forbid, env, b);
    if m != [] {
      assert m[0] in m;
      assert ps[m[0]] in ps;
    }
    if p :| p in ps && p.isForbid == forbid && PolicyMatches(p, env, b) {
      var k: nat :| k < |ps| && ps[k] == p;
      assert k in m;
    }
  }

  /** The detail of a decision: who decided, and nobody for a default denial. */
  lemma DecidingExact(ps: seq<Policy>, env: Env, b: Budget)
    ensures forall k: nat :: k in Deciding(ps, env, b) <==>
      k < |ps| && PolicyMatches(ps[k], env, b) && (ps[k].isForbid || !Fires(ps, true, env, b))
    ensures Deciding(ps, env, b) == [] ==> !Allowed(ps, env, b)
    ensures Allowed(ps, env, b) <==> exists k: nat :: k < |ps| && k in Deciding(ps, env, b) && !ps[k].isForbid
  {
    hide PolicyMatches, Matching;
    MatchingExact(ps, 0, true, env, b);
    MatchingExact(ps, 0, false, env, b);
    FiresIffMatching(ps, true, env, b);
    FiresIffMatching(ps, false, env, b);
    var d := Deciding(ps, env, b);
    if d != [] {
      assert d[0] in d;
    }
    assert forall k: nat :: k < |ps| ==> ps[k] in ps;
  }

  /** Conditions shallow enough for the recursion guard are decided as if there were none. */
  lemma GuardIrrelevant(ps: seq<Policy>, env: Env, k: nat)
    requires forall p, i :: p in ps && 0 <= i < |p.conditions| ==> Bounded.Within(p.conditions[i].expr, k)
    ensures Allowed(ps, env, Left(k)) == Allowed(ps, env, Unlimited)
  {
    hide Eval, ScopeMatches;
    forall p | p in ps ensures PolicyMatches(p, env, Left(k)) == PolicyMatches(p, env, Unlimited) {
      forall i | 0 <= i < |p.conditions|
        ensures ConditionMatches(p.conditions[i], env, Left(k)) == ConditionMatches(p.conditions[i], env, Unlimited)
      {
        Bounded.BoundedEval(p.conditions[i].expr, env, k);
      }
    }
  }

  // ---- A scope means what the same constraint means in a condition ----

  predicate IsEntityOrSet(n: Node) {
    n.EntityRef? || (n.SetLit? && forall i :: 0 <= i < |n.elts| ==> n.elts[i].EntityRef?)
  }

  /** The scopes that can be written: a set of entities only after `in`. */
  predicate WrittenScope(s: Scope) {
    match s
    case AnyEntity => true
    case IsType(_) => true
    case EqTo(target) => target.EntityRef?
    case IsTypeIn(_, target) => target.EntityRef?
    case InTo(target) => IsEntityOrSet(target)
  }

  /** The scope constraint on v as an expression. */
  function ScopeExpr(s: Scope, v: Var): Node {
    match s
    case AnyEntity => BoolLit(true)
    case IsType(ty) => Is(VarRef(v), ty, None)
    case IsTypeIn(ty, target) => Is(VarRef(v), ty, Some(target))
    case EqTo(target) => Bin(Eq, VarRef(v), target)
    case InTo(target) => Bin(In, VarRef(v), target)
  }

  lemma {:induction false} EntitiesEvaluate(elts: seq<Node>, env: Env)
    requires forall i :: 0 <= i < |elts| ==> elts[i].EntityRef?
    ensures EvalAll(elts, env, Unlimited).Some? && |EvalAll(elts, env, Unlimited).value| == |elts|
    ensures forall i :: 0 <= i < |elts| ==> EvalAll(elts, env, Unlimited).value[i] == EntityV(elts[i].ty, elts[i].id, NoSlot)
    decreases |elts|
  {
    if elts != [] {
      EntityEvaluates(elts[0], env);
      hide Eval;
      EntitiesEvaluate(elts[1..], env);
    }
  }

  lemma EntityEvaluates(n: Node, env: Env)
    requires n.EntityRef?
    ensures Eval(n, env, Unlimited) == EntityV(n.ty, n.id, RequestSlot(env, n.ty, n.id))
  {
    assert Eval(n, env, Unlimited) == EvalBody(n, env, Unlimited);
  }

  lemma VarEvaluates(v: Var, env: Env)
    ensures Eval(VarRef(v), env, Unlimited) == VarValue(v, env)
  {
    assert Eval(VarRef(v), env, Unlimited) == EvalBody(VarRef(v), env, Unlimited);
  }

  /** `in` with a written target is the scope's own hierarchical match. */
  lemma TargetMembership(p: Party, v: Var, target: Node, env: Env)
    requires v != Context && p == PartyAt(SlotOf(v), env).value && IsEntityOrSet(target)
    ensures InOf(VarValue(v, env), Eval(target, env, Unlimited), env) == BoolV(ScopeMatches(InTo(target), p))
    ensures !Eval(target, env, Unlimited).ErrorV?
  {
    if target.EntityRef? {
      EntityEvaluates(target, env);
    } else {
      EntitiesEvaluate(target.elts, env);
      hide EvalAll;
      assert Eval(target, env, Unlimited) == EvalBody(target, env, Unlimited);
      var vs := EvalAll(target.elts, env, Unlimited).value;
      assert Eval(target, env, Unlimited) == SetV(vs);
      SetMembership(p, target.elts, vs);
    }
  }

  lemma SetMembership(p: Party, elts: seq<Node>, vs: seq<Value>)
    requires |vs| == |elts|
    requires forall i :: 0 <= i < |elts| ==> elts[i].EntityRef? && vs[i] == EntityV(elts[i].ty, elts[i].id, NoSlot)
    ensures AllEntities(vs)
    ensures InSome(p.ty, p.id, p.parents, vs) <==> exists i :: 0 <= i < |elts| && ElementMatches(elts[i], p)
  {
    if exists i :: 0 <= i < |elts| && ElementMatches(elts[i], p) {
      var i :| 0 <= i < |elts| && ElementMatches(elts[i], p);
      assert InTarget(p.ty, p.id, p.parents, Ref(vs[i].ty, vs[i].id));
    }
    if InSome(p.ty, p.id, p.parents, vs) {
      var i :| 0 <= i < |vs| && InTarget(p.ty, p.id, p.parents, Ref(vs[i].ty, vs[i].id));
      assert ElementMatches(elts[i], p);
    }
  }

  /** The value of a scope constraint as an expression, given that of its target. */
  ghost function ScopeValue(s: Scope, v: Var, env: Env): Value {
    match s
    case AnyEntity => BoolV(true)
    case IsType(ty) => IsOf(VarValue(v, env), ty, None, env)
    case IsTypeIn(ty, target) => IsOf(VarValue(v, env), ty, Some(Eval(target, env, Unlimited)), env)
    case EqTo(target) => StrictOf(Eq, VarValue(v, env), Eval(target, env, Unlimited), env)
    case InTo(target) => StrictOf(In, VarValue(v, env), Eval(target, env, Unlimited), env)
  }

  lemma ScopeExprValue(s: Scope, v: Var, env: Env)
    ensures Eval(ScopeExpr(s, v), env, Unlimited) == ScopeValue(s, v, env)
  {
    hide IsOf, StrictOf, VarValue;
    VarEvaluates(v, env);
    var n := ScopeExpr(s, v);
    assert Eval(n, env, Unlimited) == EvalBody(n, env, Unlimited);
  }

  /** Moving a scope constraint into a `when` clause does not change when it holds. */
  lemma ScopeIsCondition(s: Scope, v: Var, env: Env)
    requires v != Context && WrittenScope(s)
    ensures ScopeMatches(s, PartyAt(SlotOf(v), env).value) <==>
      ConditionMatches(Condition(false, ScopeExpr(s, v)), env, Unlimited)
  {
    var p := PartyAt(SlotOf(v), env).value;
    ScopeExprValue(s, v, env);
    hide Eval, EvalBody, ScopeExpr, InTarget, IsEntityOrSet;
    match s {
      case InTo(target) =>
        TargetMembership(p, v, target, env);
      case IsTypeIn(ty, target) =>
        TargetMembership(p, v, target, env);
      case EqTo(target) =>
        EntityEvaluates(target, env);
      case _ =>
    }
  }

  /** The policy with its scope constraints moved in front of its conditions. */
  function Unscoped(p: Policy): Policy {
    p.(principal := AnyEntity, action := AnyEntity, resource := AnyEntity,
       conditions := [Condition(false, ScopeExpr(p.principal, Principal)), Condition(false, ScopeExpr(p.action, Action)),
                      Condition(false, ScopeExpr(p.resource, Resource))] + p.conditions)
  }

  predicate Written(p: Policy) {
    WrittenScope(p.principal) && WrittenScope(p.action) && WrittenScope(p.resource)
  }

  lemma UnscopedMatches(p: Policy, env: Env)
    requires Written(p)
    ensures PolicyMatches(Unscoped(p), env, Unlimited) == PolicyMatches(p, env, Unlimited)
  {
    NoScope(env);
    hide ScopeMatches, ConditionMatches, ScopeExpr, WrittenScope, AllMatch;
    ScopeIsCondition(p.principal, Principal, env);
    ScopeIsCondition(p.action, Action, env);
    ScopeIsCondition(p.resource, Resource, env);
    ThreeMore(Condition(false, ScopeExpr(p.principal, Principal)), Condition(false, ScopeExpr(p.action, Action)),
              Condition(false, ScopeExpr(p.resource, Resource)), p.conditions, env);
  }

  lemma NoScope(env: Env)
    ensures ScopeMatches(AnyEntity, env.principal) && ScopeMatches(AnyEntity, env.action) && ScopeMatches(AnyEntity, env.resource)
  {
  }

  lemma ThreeMore(a: Condition, b: Condition, c: Condition, cs: seq<Condition>, env: Env)
    ensures AllMatch([a, b, c] + cs, env, Unlimited) <==>
      ConditionMatches(a, env, Unlimited) && ConditionMatches(b, env, Unlimited) && ConditionMatches(c, env, Unlimited)
      && AllMatch(cs, env, Unlimited)
  {
    hide ConditionMatches;
    var all := [a, b, c] + cs;
    assert all[0] == a && all[1] == b && all[2] == c;
    assert forall i :: 0 <= i < |cs| ==> all[i + 3] == cs[i];
    assert forall i :: 3 <= i < |all| ==> all[i] == cs[i - 3];
  }

  function UnscopedAll(ps: seq<Policy>): (r: seq<Policy>)
    ensures |r| == |ps| && forall i :: 0 <= i < |ps| ==> r[i] == Unscoped(ps[i])
  {
    if ps == [] then [] else [Unscoped(ps[0])] + UnscopedAll(ps[1..])
  }

  /** Writing every scope as a `when` clause does not change any decision. */
  lemma UnscopedDecision(ps: seq<Policy>, env: Env)
    requires forall p :: p in ps ==> Written(p)
    ensures Allowed(UnscopedAll(ps), env, Unlimited) == Allowed(ps, env, Unlimited)
  {
    UnscopedFires(ps, true, env);
    UnscopedFires(ps, false, env);
  }

  lemma UnscopedFires(ps: seq<Policy>, forbid: bool, env: Env)
    requires forall p :: p in ps ==> Written(p)
    ensures Fires(UnscopedAll(ps), forbid, env, Unlimited) == Fires(ps, forbid, env, Unlimited)
  {
    hide PolicyMatches, Written, ScopeExpr;
    var us := UnscopedAll(ps);
    forall i | 0 <= i < |ps| ensures us[i].isForbid == ps[i].isForbid
      && PolicyMatches(us[i], env, Unlimited) == PolicyMatches(ps[i], env, Unlimited)
    {
      UnscopedMatches(ps[i], env);
    }
    if p :| p in ps && p.isForbid == forbid && PolicyMatches(p, env, Unlimited) {
      var i :| 0 <= i < |ps| && ps[i] == p;
      assert us[i] in us;
    }
    if u :| u in us && u.isForbid == forbid && PolicyMatches(u, env, Unlimited) {
      var i :| 0 <= i < |us| && us[i] == u;
      assert ps[i] in ps;
    }
  }

  // ---- The source's passes ----

  method CheckScope(scope: Scope, p: Party) returns (r: bool)
    ensures r == ScopeMatches(scope, p)
  {
    match scope {
      case AnyEntity =>
        r := true;
      case IsType(ty) =>
        r := p.ty == ty;
      case IsTypeIn(ty, target) =>
        if p.ty != ty || !target.EntityRef? {
          return false;
        }
        r := Machine.EntityInTarget(p.ty, p.id, p.parents, Ref(target.ty, target.id));
      case EqTo(target) =>
        r := target.EntityRef? && p.ty == target.ty && p.id == target.id;
      case InTo(target) =>
        if target.EntityRef? {
          r := Machine.EntityInTarget(p.ty, p.id, p.parents, Ref(target.ty, target.id));
        } else if target.SetLit? {
          var i := 0;
          while i < |target.elts|
            invariant 0 <= i <= |target.elts|
            invariant forall j :: 0 <= j < i ==> !ElementMatches(target.elts[j], p)
          {
            var e := target.elts[i];
            if e.EntityRef? {
              var b := Machine.EntityInTarget(p.ty, p.id, p.parents, Ref(e.ty, e.id));
              if b {
                return true;
              }
            }
            i := i + 1;
          }
          r := false;
        } else {
          r := false;
        }
    }
  }

  method CheckPolicy(p: Policy, m: Machine.Machine) returns (r: bool)
    modifies m`evalDepth
    ensures m.evalDepth == old(m.evalDepth)
    ensures r == PolicyMatches(p, m.env, Machine.Remaining(m.evalDepth))
  {
    hide Eval, ScopeMatches;
    r := CheckScope(p.principal, m.env.principal);
    if !r {
      return;
    }
    r := CheckScope(p.action, m.env.action);
    if !r {
      return;
    }
    r := CheckScope(p.resource, m.env.resource);
    if !r {
      return;
    }
    var j := 0;
    while j < |p.conditions|
      invariant 0 <= j <= |p.conditions| && m.evalDepth == old(m.evalDepth)
      invariant forall i :: 0 <= i < j ==> ConditionMatches(p.conditions[i], m.env, Machine.Remaining(m.evalDepth))
    {
      var c := p.conditions[j];
      var v := m.Evaluate(c.expr);
      if !v.BoolV? || v.b == c.isUnless {
        assert !ConditionMatches(c, m.env, Machine.Remaining(m.evalDepth));
        return false;
      }
      j := j + 1;
    }
  }

  /**
   * The caller's detail record: a buffer of which the first `count` entries are in use, and a second
   * buffer, reserved for policies whose conditions fail, that is never filled.
   */
  class Detail {
    var policies: array?<nat>
    var count: nat
    var errored: array?<nat>
    var erroredCount: nat

    constructor ()
      ensures policies == null && count == 0
    {
      policies := null;
      count := 0;
      errored := null;
      erroredCount := 0;
    }

    ghost predicate Valid(cap: nat)
      reads this, policies
    {
      count <= cap && if policies == null then cap == 0 else policies.Length == cap
    }

    ghost function Listed(): seq<nat>
      reads this, policies
    {
      if policies != null && count <= policies.Length then policies[..count] else []
    }

    /**
     * nxe_cedar_detail_push: appends p, after moving the entries to a buffer twice as large when the
     * current one is full. Allocation may fail, and then the list is what it was.
     */
    method Push(p: nat, cap: nat) returns (ok: bool, newCap: nat)
      requires Valid(cap)
      modifies `policies, `count, policies
      ensures Valid(newCap) && Listed() == if ok then old(Listed()) + [p] else old(Listed())
      ensures policies == old(policies) || fresh(policies)
    {
      newCap := cap;
      if count >= cap {
        ok := *;
        if !ok {
          return;
        }
        newCap := if cap == 0 then 4 else cap * 2;
        var buf := new nat[newCap];
        if policies != null {
          var k := 0;
          while k < count
            invariant 0 <= k <= count
            invariant buf[..k] == policies[..k]
            invariant policies[..count] == old(policies[..count])
            modifies buf
          {
            buf[k] := policies[k];
            k := k + 1;
          }
        }
        policies := buf;
      }
      policies[count] := p;
      count := count + 1;
      ok := true;
    }
  }

  datatype Verdict = Deny | Allow

  /**
   * One pass over the policies of an effect. Without a detail record it stops at the first match;
   * with one it lists every match, or a prefix of them if allocation fails.
   */
  method Pass(ps: seq<Policy>, forbid: bool, m: Machine.Machine, out: Detail?) returns (fired: bool, ghost complete: bool)
    requires out != null ==> out.policies == null && out.count == 0
    modifies m`evalDepth, out
    ensures m.evalDepth == old(m.evalDepth)
    ensures fired == Fires(ps, forbid, m.env, Machine.Remaining(m.evalDepth))
    ensures out != null ==> out.Listed() <= Matching(ps, 0, forbid, m.env, Machine.Remaining(m.evalDepth))
    ensures out != null && complete ==> out.Listed() == Matching(ps, 0, forbid, m.env, Machine.Remaining(m.evalDepth))
    ensures out != null && !fired ==> complete && out.policies == null && out.count == 0
    ensures out != null ==> out.errored == old(out.errored) && out.erroredCount == old(out.erroredCount)
  {
    hide PolicyMatches, Fires, Matching;
    ghost var b := Machine.Remaining(m.evalDepth);
    ghost var all := Matching(ps, 0, forbid, m.env, b);
    FiresIffMatching(ps, forbid, m.env, b);
    fired, complete := false, true;
    var cap: nat := 0;
    var i := 0;
    while i < |ps|
      invariant 0 <= i <= |ps| && m.evalDepth == old(m.evalDepth)
      invariant out == null ==> !fired && all == Matching(ps, i, forbid, m.env, b)
      invariant out != null ==> out.Valid(cap) && (out.policies == null || fresh(out.policies))
      invariant out != null ==> all == out.Listed() + Matching(ps, i, forbid, m.env, b)
      invariant out != null ==> (fired <==> out.Listed() != [])
      invariant out != null && !fired ==> out.policies == null && out.count == 0
      invariant out != null ==> out.errored == old(out.errored) && out.erroredCount == old(out.erroredCount)
    {
      MatchingStep(ps, i, forbid, m.env, b);
      if ps[i].isForbid == forbid {
        var r := CheckPolicy(ps[i], m);
        if r {
          fired := true;
          if out == null {
            return;
          }
          var ok;
          ok, cap := out.Push(i, cap);
          if !ok {
            complete := false;
            return;
          }
        }
      }
      i := i + 1;
    }
    MatchingStep(ps, i, forbid, m.env, b);
  }

  lemma MatchingStep(ps: seq<Policy>, i: nat, forbid: bool, env: Env, b: Budget)
    requires i <= |ps|
    ensures Matching(ps, i, forbid, env, b) ==
      if i == |ps| then []
      else if ps[i].isForbid == forbid && PolicyMatches(ps[i], env, b) then [i] + Matching(ps, i + 1, forbid, env, b)
      else Matching(ps, i + 1, forbid, env, b)
  {
  }

  /** nxe_cedar_eval_detail. `out` is null when the caller only wants the decision. */
  method EvalDetail(ps: seq<Policy>, m: Machine.Machine, out: Detail?) returns (d: Verdict, ghost complete: bool)
    modifies m`evalDepth, out
    ensures m.evalDepth == old(m.evalDepth)
    ensures d == if Allowed(ps, m.env, Machine.Remaining(m.evalDepth)) then Allow else Deny
    ensures out != null ==> out.Listed() <= Deciding(ps, m.env, Machine.Remaining(m.evalDepth))
    ensures out != null && complete ==> out.Listed() == Deciding(ps, m.env, Machine.Remaining(m.evalDepth))
    ensures out != null ==> out.errored == null && out.erroredCount == 0
  {
    if out != null {
      out.policies, out.count := null, 0;
      out.errored, out.erroredCount := null, 0;
    }
    var fired;
    fired, complete := Pass(ps, true, m, out);
    if fired {
      return Deny, complete;
    }
    fired, complete := Pass(ps, false, m, out);
    d := if fired then Allow else Deny;
  }
}
