/**
 * The slot discipline: which entity values may still carry the tag of a request entity, and why
 * values that went through a container or a conditional never reach the parents arrays.
 */
module Slots {
  import opened Syntax
  import opened Values
  import opened Semantics

  /** No entity in v, at any depth, carries a tag. */
  predicate Untagged(v: Value) {
    match v
    case EntityV(_, _, slot) => slot == NoSlot
    case SetV(elts) => forall i :: 0 <= i < |elts| ==> Untagged(elts[i])
    case RecordV(attrs) => forall i :: 0 <= i < |attrs| ==> Untagged(attrs[i].value)
    case _ => true
  }

  predicate UntaggedAttrs(attrs: seq<Attr>) {
    forall i :: 0 <= i < |attrs| ==> Untagged(attrs[i].value)
  }

  /** What the injection functions establish: values come in without tags. */
  predicate UntaggedEnv(env: Env) {
    && UntaggedAttrs(env.principal.attrs) && UntaggedAttrs(env.action.attrs)
    && UntaggedAttrs(env.resource.attrs) && UntaggedAttrs(env.context)
  }

  /** A tag is only ever on top, and names the request entity that has this identity. */
  predicate Disciplined(v: Value, env: Env) {
    if v.EntityV? then v.slot == NoSlot || Names(PartyAt(v.slot, env).value, v.ty, v.id)
    else Untagged(v)
  }

  lemma {:induction false} FoundUntagged(attrs: seq<Attr>, name: string)
    requires UntaggedAttrs(attrs)
    ensures Untagged(Lookup(attrs, name))
  {
  }

  lemma VarsUntagged(v: Var, env: Env)
    requires UntaggedEnv(env)
    ensures UntaggedAttrs(VarAttrs(v, env)) && Disciplined(VarValue(v, env), env)
  {
  }

  lemma AttrUntagged(v: Value, name: string, env: Env)
    requires UntaggedEnv(env) && Disciplined(v, env)
    ensures Untagged(AttrOf(v, name, env))
  {
    if AttrsOf(v, env).Some? {
      FoundUntagged(AttrsOf(v, env).value, name);
    }
  }

  /** Every value of evaluation keeps the discipline. */
  lemma {:induction false} EvalDisciplined(n: Node, env: Env, b: Budget)
    requires UntaggedEnv(env)
    ensures Disciplined(Eval(n, env, b), env)
    decreases n, 1
  {
    hide EvalBody;
    if b != Left(0) {
      BodyDisciplined(n, env, Spend(b));
    }
  }

  /** Only a variable or an entity literal can evaluate to a tagged entity. */
  predicate MayBeTagged(n: Node) {
    n.VarRef? || n.EntityRef?
  }

  lemma {:induction false} BodyDisciplined(n: Node, env: Env, b: Budget)
    requires UntaggedEnv(env)
    ensures Disciplined(EvalBody(n, env, b), env)
    ensures !MayBeTagged(n) ==> Untagged(EvalBody(n, env, b))
    decreases n, 0
  {
    if IsOperator(n) {
      OperatorSimple(n, env, b);
      return;
    }
    hide Eval, AttrOf, Lookup, UntaggedEnv, VarValue, VarAttrs;
    match n {
      case VarRef(v) =>
        VarsUntagged(v, env);
      case GetAttr(obj, name) =>
        EvalDisciplined(obj, env, b);
        AttrUntagged(Eval(obj, env, b), name, env);
        if obj.VarRef? {
          VarsUntagged(obj.v, env);
          FoundUntagged(VarAttrs(obj.v, env), name);
        }
      case SetLit(elts) =>
        AllUntagged(elts, env, b);
      case RecordLit(entries) =>
        EntriesUntagged(entries, env, b);
      case If(c, x, y) =>
        EvalDisciplined(x, env, b);
        EvalDisciplined(y, env, b);
      case _ =>
    }
  }

  lemma {:induction false} AllUntagged(elts: seq<Node>, env: Env, b: Budget)
    requires UntaggedEnv(env)
    ensures EvalAll(elts, env, b).Some? ==>
      forall i :: 0 <= i < |EvalAll(elts, env, b).value| ==> Untagged(EvalAll(elts, env, b).value[i])
    decreases elts, 2
  {
    hide Eval;
    if elts != [] {
      EvalDisciplined(elts[0], env, b);
      AllUntagged(elts[1..], env, b);
    }
  }

  lemma {:induction false} EntriesUntagged(entries: seq<Entry>, env: Env, b: Budget)
    requires UntaggedEnv(env)
    ensures EvalEntries(entries, env, b).Some? ==> UntaggedAttrs(EvalEntries(entries, env, b).value)
    decreases entries, 2
  {
    hide Eval;
    if entries != [] {
      EvalDisciplined(entries[0].value, env, b);
      EntriesUntagged(entries[1..], env, b);
    }
  }

  /** `in` on an untagged entity is membership of the entity itself, whatever the parents arrays hold. */
  predicate Reflexive(left: Value, right: Value)
    requires left.EntityV?
  {
    match right
    case EntityV(ty, id, _) => left.ty == ty && left.id == id
    case SetV(elts) => exists i :: 0 <= i < |elts| && elts[i].EntityV? && elts[i].ty == left.ty && elts[i].id == left.id
    case _ => false
  }

  /**
   * `in` applied to the value of anything but a bare variable or an entity literal (so to an
   * attribute, an element of a container or the result of a conditional) ignores all ancestors.
   */
  lemma InIgnoresParents(n: Node, right: Value, env: Env, b: Budget, anyEnv: Env)
    requires UntaggedEnv(env) && !MayBeTagged(n)
    ensures var left := Eval(n, env, b);
      InOf(left, right, env) == InOf(left, right, anyEnv)
      && (InOf(left, right, env).BoolV? ==> left.EntityV? && (InOf(left, right, env).b <==> Reflexive(left, right)))
  {
    hide EvalBody;
    if b != Left(0) {
      BodyDisciplined(n, env, Spend(b));
    }
  }
}
