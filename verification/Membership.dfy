/**
 * Hierarchy membership, written out: `in`, `is` and the scopes of policies look at the entity itself and
 * at the registered parents of the request entity it still stands for.
 */
module Membership {
  import opened Common
  import opened Syntax
  import opened Values
  import opened Semantics
  import opened Operators
  import Decision

  /** p is the entity, or has it among its parents. */
  predicate Under(p: Party, ty: string, id: string) {
    (p.ty == ty && p.id == id) || exists i :: 0 <= i < |p.parents| && p.parents[i].ty == ty && p.parents[i].id == id
  }

  lemma UnderIsInTarget(p: Party, ty: string, id: string)
    ensures InTarget(p.ty, p.id, p.parents, Ref(ty, id)) <==> Under(p, ty, id)
  {
    if Ref(ty, id) in p.parents {
      var i :| 0 <= i < |p.parents| && p.parents[i] == Ref(ty, id);
    }
  }

  // ---- in ----

  /** A keyword in an entity: true exactly if its party is that entity or one of its parents is. */
  lemma KeywordIn(v: Var, ty: string, id: string, env: Env, b: Budget)
    requires v != Context && b != Left(0) && Spend(b) != Left(0)
    ensures Eval(Bin(In, VarRef(v), EntityRef(ty, id)), env, b) == BoolV(Under(PartyOf(v, env), ty, id))
  {
    Strictly(In, VarRef(v), EntityRef(ty, id), env, b);
    Unfold(VarRef(v), env, Spend(b));
    Unfold(EntityRef(ty, id), env, Spend(b));
    hide Eval, InTarget, Under;
    UnderIsInTarget(PartyOf(v, env), ty, id);
  }

  /** An entity literal in an entity: it has the parents of the first request entity with its identity. */
  lemma LiteralIn(ty: string, id: string, ty': string, id': string, env: Env, b: Budget)
    requires b != Left(0) && Spend(b) != Left(0)
    ensures Eval(Bin(In, EntityRef(ty, id), EntityRef(ty', id')), env, b) ==
      BoolV(if ty == env.principal.ty && id == env.principal.id then Under(env.principal, ty', id')
            else if ty == env.action.ty && id == env.action.id then Under(env.action, ty', id')
            else if ty == env.resource.ty && id == env.resource.id then Under(env.resource, ty', id')
            else ty == ty' && id == id')
  {
    Strictly(In, EntityRef(ty, id), EntityRef(ty', id'), env, b);
    Unfold(EntityRef(ty, id), env, Spend(b));
    Unfold(EntityRef(ty', id'), env, Spend(b));
    hide Eval, InTarget, Under;
    UnderIsInTarget(env.principal, ty', id');
    UnderIsInTarget(env.action, ty', id');
    UnderIsInTarget(env.resource, ty', id');
    UnderIsInTarget(Party(ty, id, [], []), ty', id');
    Alone(ty, id, ty', id');
  }

  lemma Alone(ty: string, id: string, ty': string, id': string)
    ensures Under(Party(ty, id, [], []), ty', id') <==> ty == ty' && id == id'
  {
  }

  /** A keyword in a set of entities: true exactly if that holds for one of them. */
  lemma KeywordInSet(v: Var, elts: seq<Node>, env: Env, b: Budget)
    requires v != Context && b != Left(0) && Spend(b) != Left(0) && Spend(Spend(b)) != Left(0)
    requires forall i :: 0 <= i < |elts| ==> elts[i].EntityRef?
    ensures Eval(Bin(In, VarRef(v), SetLit(elts)), env, b) ==
      BoolV(exists i :: 0 <= i < |elts| && Under(PartyOf(v, env), elts[i].ty, elts[i].id))
  {
    var p := PartyOf(v, env);
    Strictly(In, VarRef(v), SetLit(elts), env, b);
    Unfold(VarRef(v), env, Spend(b));
    forall i | 0 <= i < |elts| ensures Sub(elts[i], env, Spend(b)) == EntityV(elts[i].ty, elts[i].id, RequestSlot(env, elts[i].ty, elts[i].id)) {
      Unfold(elts[i], env, Spend(Spend(b)));
    }
    hide Eval, InTarget, Under, RequestSlot;
    SetElements(elts, env, Spend(b));
    var vs := Sub(SetLit(elts), env, b).elts;
    forall i | 0 <= i < |elts| ensures vs[i].EntityV? && vs[i].ty == elts[i].ty && vs[i].id == elts[i].id
      && (InTarget(p.ty, p.id, p.parents, Ref(vs[i].ty, vs[i].id)) <==> Under(p, elts[i].ty, elts[i].id))
    {
      UnderIsInTarget(p, elts[i].ty, elts[i].id);
    }
    InSet(p, v, vs, elts, env);
  }

  lemma InSet(p: Party, v: Var, vs: seq<Value>, elts: seq<Node>, env: Env)
    requires v != Context && p == PartyOf(v, env) && |vs| == |elts|
    requires forall i :: 0 <= i < |elts| ==> elts[i].EntityRef? && vs[i].EntityV?
    requires forall i :: 0 <= i < |elts| ==>
      (InTarget(p.ty, p.id, p.parents, Ref(vs[i].ty, vs[i].id)) <==> Under(p, elts[i].ty, elts[i].id))
    ensures InOf(VarValue(v, env), SetV(vs), env) ==
      BoolV(exists i :: 0 <= i < |elts| && Under(p, elts[i].ty, elts[i].id))
  {
    hide InTarget, Under;
    if InSome(p.ty, p.id, p.parents, vs) {
      var i :| 0 <= i < |vs| && InTarget(p.ty, p.id, p.parents, Ref(vs[i].ty, vs[i].id));
      assert Under(p, elts[i].ty, elts[i].id);
    }
    if i :| 0 <= i < |elts| && Under(p, elts[i].ty, elts[i].id) {
      assert InTarget(p.ty, p.id, p.parents, Ref(vs[i].ty, vs[i].id));
    }
  }

  /** `in` errs unless an entity is on the left, and an entity or a set of entities only on the right. */
  lemma InErrs(l: Node, r: Node, env: Env, b: Budget)
    requires b != Left(0)
    ensures var v, w := Sub(l, env, b), Sub(r, env, b);
      Eval(Bin(In, l, r), env, b) == ErrorV <==>
        !v.EntityV? || !(w.EntityV? || (w.SetV? && forall i :: 0 <= i < |w.elts| ==> w.elts[i].EntityV?))
  {
    Strictly(In, l, r, env, b);
    hide Eval, InSome, InTarget;
  }

  // ---- is ----

  /** `is T` compares the type of an entity. */
  lemma IsType(l: Node, ty: string, env: Env, b: Budget)
    requires b != Left(0)
    ensures var v := Sub(l, env, b);
      Eval(Is(l, ty, None), env, b) == if v.EntityV? then BoolV(v.ty == ty) else ErrorV
  {
    Unfold(Is(l, ty, None), env, b);
    hide Eval;
  }

  /** `is T in e` is `is T` and then `in e`, which only counts if the type fits. */
  lemma IsIn(l: Node, ty: string, e: Node, env: Env, b: Budget)
    requires b != Left(0)
    ensures var v := Sub(l, env, b);
      Eval(Is(l, ty, Some(e)), env, b) ==
        if !v.EntityV? then ErrorV else if v.ty != ty then BoolV(false) else Eval(Bin(In, l, e), env, b)
  {
    Unfold(Is(l, ty, Some(e)), env, b);
    Strictly(In, l, e, env, b);
    hide Eval, InOf;
  }

  // ---- Scopes ----

  /** What a scope that can be written demands of its party. */
  predicate Demands(s: Scope, p: Party) {
    match s
    case AnyEntity => true
    case IsType(ty) => p.ty == ty
    case EqTo(target) => target.EntityRef? && p.ty == target.ty && p.id == target.id
    case IsTypeIn(ty, target) => p.ty == ty && target.EntityRef? && Under(p, target.ty, target.id)
    case InTo(target) =>
      (target.EntityRef? && Under(p, target.ty, target.id))
      || (target.SetLit? && exists i :: 0 <= i < |target.elts| && target.elts[i].EntityRef?
                                          && Under(p, target.elts[i].ty, target.elts[i].id))
  }

  lemma ScopeMeans(s: Scope, p: Party)
    ensures Decision.ScopeMatches(s, p) <==> Demands(s, p)
  {
    hide InTarget, Under;
    match s {
      case IsTypeIn(ty, target) =>
        if target.EntityRef? {
          UnderIsInTarget(p, target.ty, target.id);
        }
      case InTo(target) =>
        if target.EntityRef? {
          UnderIsInTarget(p, target.ty, target.id);
        } else if target.SetLit? {
          forall i | 0 <= i < |target.elts| && target.elts[i].EntityRef?
            ensures Decision.ElementMatches(target.elts[i], p) <==> Under(p, target.elts[i].ty, target.elts[i].id)
          {
            UnderIsInTarget(p, target.elts[i].ty, target.elts[i].id);
          }
        }
      case _ =>
    }
  }
}
