/**
 * Writing the literal that names a request entity instead of its keyword: when this leaves
 * evaluation unchanged. In particular the fast paths of attribute access and `has` on a keyword
 * agree with the general path.
 */
module Substitution {
  import opened Common
  import opened Syntax
  import opened Values
  import opened Semantics
  import Bounded

  /** The literal naming the entity that v stands for. */
  function Literal(v: Var, env: Env): Node
    requires v != Context
  {
    var p := PartyAt(SlotOf(v), env).value;
    EntityRef(p.ty, p.id)
  }

  /** n with every occurrence of v replaced by its literal. */
  function Subst(n: Node, v: Var, env: Env): Node
    requires v != Context
    decreases n, 0
  {
    match n
    case VarRef(w) => if w == v then Literal(v, env) else n
    case SetLit(elts) => SetLit(SubstAll(elts, v, env))
    case RecordLit(entries) => RecordLit(SubstEntries(entries, v, env))
    case GetAttr(obj, name) => GetAttr(Subst(obj, v, env), name)
    case Bin(op, l, r) => Bin(op, Subst(l, v, env), Subst(r, v, env))
    case Not(e) => Not(Subst(e, v, env))
    case Neg(e) => Neg(Subst(e, v, env))
    case Has(obj, name) => Has(Subst(obj, v, env), name)
    case Like(obj, pattern) => Like(Subst(obj, v, env), pattern)
    case If(c, x, y) => If(Subst(c, v, env), Subst(x, v, env), Subst(y, v, env))
    case Call(obj, callee, arg) =>
      Call(Subst(obj, v, env), callee, if arg.None? then None else Some(Subst(arg.value, v, env)))
    case Is(obj, ty, e) => Is(Subst(obj, v, env), ty, if e.None? then None else Some(Subst(e.value, v, env)))
    case _ => n
  }

  function SubstAll(elts: seq<Node>, v: Var, env: Env): (r: seq<Node>)
    requires v != Context
    ensures |r| == |elts|
    decreases elts, 1
  {
    if elts == [] then [] else [Subst(elts[0], v, env)] + SubstAll(elts[1..], v, env)
  }

  function SubstEntries(entries: seq<Entry>, v: Var, env: Env): (r: seq<Entry>)
    requires v != Context
    ensures |r| == |entries|
    decreases entries, 1
  {
    if entries == [] then []
    else [Entry(entries[0].key, Subst(entries[0].value, v, env))] + SubstEntries(entries[1..], v, env)
  }

  /** No earlier slot has the identity of v: never a condition on `principal`. */
  predicate OwnsIdentity(v: Var, env: Env)
    requires v != Context
  {
    match v
    case Principal => true
    case Action => !Names(env.principal, env.action.ty, env.action.id)
    case Resource =>
      !Names(env.principal, env.resource.ty, env.resource.id) && !Names(env.action, env.resource.ty, env.resource.id)
  }

  /** The fast paths: looking a keyword's attribute up directly is evaluating the keyword first. */
  lemma FastPath(v: Var, name: string, env: Env)
    ensures Lookup(VarAttrs(v, env), name) == AttrOf(VarValue(v, env), name, env)
    ensures BoolV(FindAttr(VarAttrs(v, env), name).Some?) == HasOf(VarValue(v, env), name, env)
  {
  }

  /** The literal has the value of the keyword exactly when no earlier slot shares the identity. */
  lemma LiteralValue(v: Var, env: Env)
    requires v != Context
    ensures Eval(Literal(v, env), env, Unlimited) == Eval(VarRef(v), env, Unlimited) <==> OwnsIdentity(v, env)
  {
    assert Eval(Literal(v, env), env, Unlimited) == EvalBody(Literal(v, env), env, Unlimited);
    assert Eval(VarRef(v), env, Unlimited) == EvalBody(VarRef(v), env, Unlimited);
  }

  /** Attribute access without the fast path: the same value. */
  lemma GetAttrValue(obj: Node, name: string, env: Env)
    ensures Eval(GetAttr(obj, name), env, Unlimited) == AttrOf(Eval(obj, env, Unlimited), name, env)
    ensures Eval(Has(obj, name), env, Unlimited) == HasOf(Eval(obj, env, Unlimited), name, env)
  {
    hide Lookup, AttrOf, HasOf;
    if obj.VarRef? {
      FastPath(obj.v, name, env);
      assert Eval(obj, env, Unlimited) == EvalBody(obj, env, Unlimited) == VarValue(obj.v, env);
    }
  }

  lemma {:induction false} SubstValue(n: Node, v: Var, env: Env)
    requires v != Context && OwnsIdentity(v, env)
    ensures Eval(Subst(n, v, env), env, Unlimited) == Eval(n, env, Unlimited)
    decreases n, 0
  {
    hide LogicOf, StrictOf, NotOf, NegOf, LikeOf, AttrOf, HasOf, Call0Of, Call1Of, IsOf, IfOf, ExtOf, Lookup, VarAttrs, OwnsIdentity;
    match n {
      case VarRef(w) =>
        LiteralValue(v, env);
      case SetLit(elts) =>
        SubstAllValue(elts, v, env);
      case RecordLit(entries) =>
        SubstEntriesValue(entries, v, env);
      case GetAttr(obj, name) =>
        SubstValue(obj, v, env);
        GetAttrValue(obj, name, env);
        GetAttrValue(Subst(obj, v, env), name, env);
      case Has(obj, name) =>
        SubstValue(obj, v, env);
        GetAttrValue(obj, name, env);
        GetAttrValue(Subst(obj, v, env), name, env);
      case Bin(op, l, r) =>
        SubstValue(l, v, env);
        SubstValue(r, v, env);
      case Not(e) =>
        SubstValue(e, v, env);
      case Neg(e) =>
        SubstValue(e, v, env);
      case Like(obj, pattern) =>
        SubstValue(obj, v, env);
      case Call(obj, callee, arg) =>
        SubstValue(obj, v, env);
        if arg.Some? {
          SubstValue(arg.value, v, env);
        }
      case Is(obj, ty, e) =>
        SubstValue(obj, v, env);
        if e.Some? {
          SubstValue(e.value, v, env);
        }
      case If(c, x, y) =>
        SubstValue(c, v, env);
        SubstValue(x, v, env);
        SubstValue(y, v, env);
      case _ =>
    }
  }

  lemma {:induction false} SubstAllValue(elts: seq<Node>, v: Var, env: Env)
    requires v != Context && OwnsIdentity(v, env)
    ensures EvalAll(SubstAll(elts, v, env), env, Unlimited) == EvalAll(elts, env, Unlimited)
    decreases elts, 1
  {
    hide Eval, Subst;
    if elts != [] {
      SubstValue(elts[0], v, env);
      SubstAllValue(elts[1..], v, env);
      assert SubstAll(elts, v, env)[1..] == SubstAll(elts[1..], v, env);
    }
  }

  lemma {:induction false} SubstEntriesValue(entries: seq<Entry>, v: Var, env: Env)
    requires v != Context && OwnsIdentity(v, env)
    ensures EvalEntries(SubstEntries(entries, v, env), env, Unlimited) == EvalEntries(entries, env, Unlimited)
    decreases entries, 1
  {
    hide Eval, Subst;
    if entries != [] {
      SubstValue(entries[0].value, v, env);
      SubstEntriesValue(entries[1..], v, env);
      assert SubstEntries(entries, v, env)[1..] == SubstEntries(entries[1..], v, env);
    }
  }

  /** The substitution does not change what n evaluates to. */
  ghost predicate Unchanged(n: Node, v: Var, env: Env)
    requires v != Context
  {
    Eval(Subst(n, v, env), env, Unlimited) == Eval(n, env, Unlimited)
  }

  /**
   * Replacing a keyword by the literal that names it preserves the value of every expression exactly
   * when no earlier slot shares the identity; for `principal` this always holds.
   */
  lemma SubstitutionExact(v: Var, env: Env)
    requires v != Context
    ensures OwnsIdentity(v, env) <==> forall n: Node :: Unchanged(n, v, env)
  {
    hide OwnsIdentity;
    if OwnsIdentity(v, env) {
      forall n: Node ensures Unchanged(n, v, env) {
        SubstValue(n, v, env);
      }
    }
    LiteralValue(v, env);
    assert Subst(VarRef(v), v, env) == Literal(v, env);
    assert Unchanged(VarRef(v), v, env) <==> OwnsIdentity(v, env);
  }

  // ---- Under the recursion guard ----

  /**
   * With one more frame for the literal, which the fast paths of the keyword do without, the guarded value
   * of the expression is the guarded value of the substituted one, or an error.
   */
  lemma {:induction false} SubstGuarded(n: Node, v: Var, env: Env, k: nat)
    requires v != Context && OwnsIdentity(v, env)
    ensures Bounded.Below(Eval(n, env, Left(k)), Eval(Subst(n, v, env), env, Left(k + 1)))
    decreases n, 1
  {
    hide EvalBody;
    if k > 0 {
      SubstBody(n, v, env, k - 1);
    }
  }

  lemma {:induction false} SubstBody(n: Node, v: Var, env: Env, k: nat)
    requires v != Context && OwnsIdentity(v, env)
    ensures Bounded.Below(EvalBody(n, env, Left(k)), EvalBody(Subst(n, v, env), env, Left(k + 1)))
    decreases n, 0
  {
    hide Eval, LogicOf, StrictOf, NotOf, NegOf, LikeOf, AttrOf, HasOf, Call0Of, Call1Of, IsOf, IfOf, ExtOf, Lookup, VarAttrs,
      VarValue, SlotOf, RequestSlot, OwnsIdentity;
    var b, c := Left(k), Left(k + 1);
    match n {
      case VarRef(w) =>
        LiteralBody(v, env, c);
      case GetAttr(obj, name) =>
        SubstObject(obj, name, v, env, k);
      case Has(obj, name) =>
        SubstObject(obj, name, v, env, k);
      case SetLit(elts) =>
        SubstAllGuarded(elts, v, env, k);
      case RecordLit(entries) =>
        SubstEntriesGuarded(entries, v, env, k);
      case Bin(op, l, r) =>
        SubstGuarded(l, v, env, k);
        SubstGuarded(r, v, env, k);
        var l', r' := Subst(l, v, env), Subst(r, v, env);
        Bounded.LogicMonotone(op, Eval(l, env, b), Eval(l', env, c), Eval(r, env, b), Eval(r', env, c));
        Bounded.StrictMonotone(op, Eval(l, env, b), Eval(l', env, c), Eval(r, env, b), Eval(r', env, c), env);
      case Not(e) =>
        SubstGuarded(e, v, env, k);
        Bounded.UnaryMonotone(Eval(e, env, b), Eval(Subst(e, v, env), env, c), "", env);
      case Neg(e) =>
        SubstGuarded(e, v, env, k);
        Bounded.UnaryMonotone(Eval(e, env, b), Eval(Subst(e, v, env), env, c), "", env);
      case Like(obj, pattern) =>
        SubstGuarded(obj, v, env, k);
        Bounded.UnaryMonotone(Eval(obj, env, b), Eval(Subst(obj, v, env), env, c), pattern, env);
      case Call(obj, callee, arg) =>
        SubstGuarded(obj, v, env, k);
        var x, x' := Eval(obj, env, b), Eval(Subst(obj, v, env), env, c);
        if arg.None? {
          Bounded.CallMonotone(callee, x, x', x, x');
        } else {
          SubstGuarded(arg.value, v, env, k);
          Bounded.CallMonotone(callee, x, x', Eval(arg.value, env, b), Eval(Subst(arg.value, v, env), env, c));
        }
      case Is(obj, ty, e) =>
        SubstGuarded(obj, v, env, k);
        var x, x' := Eval(obj, env, b), Eval(Subst(obj, v, env), env, c);
        if e.None? {
          Bounded.IsMonotone(x, x', ty, None, None, env);
        } else {
          SubstGuarded(e.value, v, env, k);
          Bounded.IsMonotone(x, x', ty, Some(Eval(e.value, env, b)), Some(Eval(Subst(e.value, v, env), env, c)), env);
        }
      case If(x, y, z) =>
        SubstGuarded(x, v, env, k);
        SubstGuarded(y, v, env, k);
        SubstGuarded(z, v, env, k);
        Bounded.IfMonotone(Eval(x, env, b), Eval(Subst(x, v, env), env, c), Eval(y, env, b), Eval(Subst(y, v, env), env, c),
                           Eval(z, env, b), Eval(Subst(z, v, env), env, c));
      case _ =>
    }
  }

  lemma LiteralBody(v: Var, env: Env, b: Budget)
    requires v != Context && OwnsIdentity(v, env)
    ensures EvalBody(Literal(v, env), env, b) == EvalBody(VarRef(v), env, b) == VarValue(v, env)
    ensures b.Left? ==> Eval(Literal(v, env), env, Left(b.frames + 1)) == VarValue(v, env)
  {
  }

  /** Attribute access and `has`: the fast path of a keyword, or the same object. */
  lemma {:induction false} SubstObject(obj: Node, name: string, v: Var, env: Env, k: nat)
    requires v != Context && OwnsIdentity(v, env)
    ensures var obj' := Subst(obj, v, env);
      && Bounded.Below(EvalBody(GetAttr(obj, name), env, Left(k)), EvalBody(GetAttr(obj', name), env, Left(k + 1)))
      && Bounded.Below(EvalBody(Has(obj, name), env, Left(k)), EvalBody(Has(obj', name), env, Left(k + 1)))
    decreases obj, 2
  {
    hide *;
    var obj' := Subst(obj, v, env);
    ObjectBody(obj, name, env, Left(k));
    ObjectBody(obj', name, env, Left(k + 1));
    SubstShape(obj, v, env);
    if obj == VarRef(v) {
      FastPath(v, name, env);
      LiteralBody(v, env, Left(k));
      Same(EvalBody(GetAttr(obj, name), env, Left(k)));
      Same(EvalBody(Has(obj, name), env, Left(k)));
    } else if !obj.VarRef? {
      SubstGuarded(obj, v, env, k);
      Bounded.UnaryMonotone(Eval(obj, env, Left(k)), Eval(obj', env, Left(k + 1)), name, env);
    } else {
      Same(EvalBody(GetAttr(obj, name), env, Left(k)));
      Same(EvalBody(Has(obj, name), env, Left(k)));
    }
  }

  lemma ObjectBody(obj: Node, name: string, env: Env, b: Budget)
    ensures EvalBody(GetAttr(obj, name), env, b) ==
      if obj.VarRef? then Lookup(VarAttrs(obj.v, env), name) else AttrOf(Eval(obj, env, b), name, env)
    ensures EvalBody(Has(obj, name), env, b) ==
      if obj.VarRef? then BoolV(FindAttr(VarAttrs(obj.v, env), name).Some?) else HasOf(Eval(obj, env, b), name, env)
  {
    hide Eval, Lookup, AttrOf, HasOf, VarAttrs, FindAttr;
  }

  lemma SubstShape(obj: Node, v: Var, env: Env)
    requires v != Context
    ensures obj == VarRef(v) ==> Subst(obj, v, env) == Literal(v, env) && !Literal(v, env).VarRef?
    ensures obj.VarRef? && obj != VarRef(v) ==> Subst(obj, v, env) == obj
    ensures !obj.VarRef? ==> !Subst(obj, v, env).VarRef?
  {
  }

  lemma Same(v: Value)
    ensures Bounded.Below(v, v)
  {
  }

  lemma {:induction false} SubstAllGuarded(elts: seq<Node>, v: Var, env: Env, k: nat)
    requires v != Context && OwnsIdentity(v, env)
    ensures EvalAll(elts, env, Left(k)).None? || EvalAll(elts, env, Left(k)) == EvalAll(SubstAll(elts, v, env), env, Left(k + 1))
    decreases elts, 2
  {
    hide Eval, Subst, Untag;
    if elts != [] {
      SubstGuarded(elts[0], v, env, k);
      SubstAllGuarded(elts[1..], v, env, k);
      assert SubstAll(elts, v, env)[1..] == SubstAll(elts[1..], v, env);
    }
  }

  lemma {:induction false} SubstEntriesGuarded(entries: seq<Entry>, v: Var, env: Env, k: nat)
    requires v != Context && OwnsIdentity(v, env)
    ensures EvalEntries(entries, env, Left(k)).None?
      || EvalEntries(entries, env, Left(k)) == EvalEntries(SubstEntries(entries, v, env), env, Left(k + 1))
    decreases entries, 2
  {
    hide Eval, Subst, Untag;
    if entries != [] {
      SubstGuarded(entries[0].value, v, env, k);
      SubstEntriesGuarded(entries[1..], v, env, k);
      assert SubstEntries(entries, v, env)[1..] == SubstEntries(entries[1..], v, env);
    }
  }

  /** The two guarded values, between errors and the common value without the guard. */
  lemma SubstitutionBounded(n: Node, v: Var, env: Env, k: nat)
    requires v != Context && OwnsIdentity(v, env)
    ensures Bounded.Below(Eval(n, env, Left(k)), Eval(Subst(n, v, env), env, Left(k + 1)))
    ensures Bounded.Below(Eval(Subst(n, v, env), env, Left(k + 1)), Eval(n, env, Unlimited))
    ensures Bounded.Within(n, k) ==>
      Eval(Subst(n, v, env), env, Left(k + 1)) == Eval(n, env, Left(k)) == Eval(n, env, Unlimited)
  {
    hide Eval, Subst, OwnsIdentity;
    SubstGuarded(n, v, env, k);
    SubstValue(n, v, env);
    Bounded.BoundedEval(Subst(n, v, env), env, k + 1);
    Bounded.BoundedEval(n, env, k);
  }
}
