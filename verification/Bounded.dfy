/**
 * The recursion guard (NXE_CEDAR_MAX_EVAL_DEPTH): the bounded evaluator gives the value of the
 * unbounded one or an error, because every evaluated position is strict in errors.
 */
module Bounded {
  import opened Common
  import opened Syntax
  import opened Values
  import opened Semantics
  import Grammar
  import Printer
  import RoundTrip

  /** The same value, or an error in its place. */
  predicate Below(a: Value, b: Value) {
    a == b || a.ErrorV?
  }

  /** Evaluating n never nests more than h evaluations. */
  predicate Within(n: Node, h: nat)
    decreases n
  {
    h > 0 &&
    match n
    case GetAttr(obj, _) => obj.VarRef? || Within(obj, h - 1)
    case Has(obj, _) => obj.VarRef? || Within(obj, h - 1)
    case SetLit(elts) => forall i :: 0 <= i < |elts| ==> Within(elts[i], h - 1)
    case RecordLit(entries) => forall i :: 0 <= i < |entries| ==> Within(entries[i].value, h - 1)
    case Bin(_, l, r) => Within(l, h - 1) && Within(r, h - 1)
    case Not(e) => Within(e, h - 1)
    case Neg(e) => Within(e, h - 1)
    case Like(obj, _) => Within(obj, h - 1)
    case Call(obj, _, arg) => Within(obj, h - 1) && (arg.Some? ==> Within(arg.value, h - 1))
    case Is(obj, _, e) => Within(obj, h - 1) && (e.Some? ==> Within(e.value, h - 1))
    case If(c, x, y) => Within(c, h - 1) && Within(x, h - 1) && Within(y, h - 1)
    case _ => true
  }

  // ---- Strictness of the operators ----

  lemma LogicMonotone(op: Op, a: Value, a': Value, b: Value, b': Value)
    requires Below(a, a') && Below(b, b')
    ensures Below(LogicOf(op, a, b), LogicOf(op, a', b'))
  {
  }

  lemma StrictMonotone(op: Op, a: Value, a': Value, b: Value, b': Value, env: Env)
    requires Below(a, a') && Below(b, b')
    ensures Below(StrictOf(op, a, b, env), StrictOf(op, a', b', env))
  {
    hide EqOf, InOf, CompareOf, ArithOf, Negated;
  }

  lemma UnaryMonotone(v: Value, v': Value, name: string, env: Env)
    requires Below(v, v')
    ensures Below(AttrOf(v, name, env), AttrOf(v', name, env))
    ensures Below(HasOf(v, name, env), HasOf(v', name, env))
    ensures Below(NotOf(v), NotOf(v')) && Below(NegOf(v), NegOf(v')) && Below(LikeOf(v, name), LikeOf(v', name))
  {
    hide Lookup;
  }

  lemma CallMonotone(callee: string, v: Value, v': Value, a: Value, a': Value)
    requires Below(v, v') && Below(a, a')
    ensures Below(Call0Of(callee, v), Call0Of(callee, v'))
    ensures Below(Call1Of(callee, v, a), Call1Of(callee, v', a'))
  {
    hide FromTri, DatetimeCall, DecimalCall, Contains, ContainsAll, ContainsAny;
  }

  lemma IsMonotone(v: Value, v': Value, ty: string, r: Option<Value>, r': Option<Value>, env: Env)
    requires Below(v, v') && r.Some? == r'.Some? && (r.Some? ==> Below(r.value, r'.value))
    ensures Below(IsOf(v, ty, r, env), IsOf(v', ty, r', env))
  {
    hide InOf;
  }

  lemma IfMonotone(c: Value, c': Value, a: Value, a': Value, b: Value, b': Value)
    requires Below(c, c') && Below(a, a') && Below(b, b')
    ensures Below(IfOf(c, a, b), IfOf(c', a', b'))
  {
  }

  // ---- The theorem ----

  /** With k frames left: the unbounded value or an error, and the value itself if k is enough. */
  lemma {:induction false} BoundedEval(n: Node, env: Env, k: nat)
    ensures Below(Eval(n, env, Left(k)), Eval(n, env, Unlimited))
    ensures Within(n, k) ==> Eval(n, env, Left(k)) == Eval(n, env, Unlimited)
    decreases n, 1
  {
    hide EvalBody;
    if k > 0 {
      BoundedBody(n, env, k - 1);
    }
  }

  lemma {:induction false} BoundedBody(n: Node, env: Env, k: nat)
    ensures Below(EvalBody(n, env, Left(k)), EvalBody(n, env, Unlimited))
    ensures Within(n, k + 1) ==> EvalBody(n, env, Left(k)) == EvalBody(n, env, Unlimited)
    decreases n, 0
  {
    hide Eval, LogicOf, StrictOf, NotOf, NegOf, LikeOf, AttrOf, HasOf, Call0Of, Call1Of, IsOf, IfOf, ExtOf, Lookup, VarAttrs;
    match n {
      case GetAttr(obj, name) =>
        BoundedEval(obj, env, k);
        UnaryMonotone(Eval(obj, env, Left(k)), Eval(obj, env, Unlimited), name, env);
      case Has(obj, name) =>
        BoundedEval(obj, env, k);
        UnaryMonotone(Eval(obj, env, Left(k)), Eval(obj, env, Unlimited), name, env);
      case SetLit(elts) =>
        BoundedAll(elts, env, k);
      case RecordLit(entries) =>
        BoundedEntries(entries, env, k);
      case Bin(op, l, r) =>
        BoundedEval(l, env, k);
        BoundedEval(r, env, k);
        LogicMonotone(op, Eval(l, env, Left(k)), Eval(l, env, Unlimited), Eval(r, env, Left(k)), Eval(r, env, Unlimited));
        StrictMonotone(op, Eval(l, env, Left(k)), Eval(l, env, Unlimited), Eval(r, env, Left(k)), Eval(r, env, Unlimited), env);
      case Not(e) =>
        BoundedEval(e, env, k);
        UnaryMonotone(Eval(e, env, Left(k)), Eval(e, env, Unlimited), "", env);
      case Neg(e) =>
        BoundedEval(e, env, k);
        UnaryMonotone(Eval(e, env, Left(k)), Eval(e, env, Unlimited), "", env);
      case Like(obj, pattern) =>
        BoundedEval(obj, env, k);
        UnaryMonotone(Eval(obj, env, Left(k)), Eval(obj, env, Unlimited), pattern, env);
      case Call(obj, callee, arg) =>
        BoundedEval(obj, env, k);
        var v, v' := Eval(obj, env, Left(k)), Eval(obj, env, Unlimited);
        if arg.None? {
          CallMonotone(callee, v, v', v, v');
        } else {
          BoundedEval(arg.value, env, k);
          CallMonotone(callee, v, v', Eval(arg.value, env, Left(k)), Eval(arg.value, env, Unlimited));
        }
      case Is(obj, ty, e) =>
        BoundedEval(obj, env, k);
        var v, v' := Eval(obj, env, Left(k)), Eval(obj, env, Unlimited);
        if e.None? {
          IsMonotone(v, v', ty, None, None, env);
        } else {
          BoundedEval(e.value, env, k);
          IsMonotone(v, v', ty, Some(Eval(e.value, env, Left(k))), Some(Eval(e.value, env, Unlimited)), env);
        }
      case If(c, x, y) =>
        BoundedEval(c, env, k);
        BoundedEval(x, env, k);
        BoundedEval(y, env, k);
        IfMonotone(Eval(c, env, Left(k)), Eval(c, env, Unlimited), Eval(x, env, Left(k)), Eval(x, env, Unlimited),
                   Eval(y, env, Left(k)), Eval(y, env, Unlimited));
      case _ =>
    }
  }

  lemma {:induction false} BoundedAll(elts: seq<Node>, env: Env, k: nat)
    ensures EvalAll(elts, env, Left(k)).None? || EvalAll(elts, env, Left(k)) == EvalAll(elts, env, Unlimited)
    ensures (forall i :: 0 <= i < |elts| ==> Within(elts[i], k)) ==>
      EvalAll(elts, env, Left(k)) == EvalAll(elts, env, Unlimited)
    decreases elts, 2
  {
    hide Eval, Within, Untag;
    if elts != [] {
      BoundedEval(elts[0], env, k);
      BoundedAll(elts[1..], env, k);
    }
  }

  lemma {:induction false} BoundedEntries(entries: seq<Entry>, env: Env, k: nat)
    ensures EvalEntries(entries, env, Left(k)).None? || EvalEntries(entries, env, Left(k)) == EvalEntries(entries, env, Unlimited)
    ensures (forall i :: 0 <= i < |entries| ==> Within(entries[i].value, k)) ==>
      EvalEntries(entries, env, Left(k)) == EvalEntries(entries, env, Unlimited)
    decreases entries, 2
  {
    hide Eval, Within, Untag;
    if entries != [] {
      BoundedEval(entries[0].value, env, k);
      BoundedEntries(entries[1..], env, k);
    }
  }

  // ---- When the guard fires ----

  /** Evaluating n always nests more than k evaluations, or errs before it does. */
  predicate Exceeds(n: Node, k: nat)
    decreases n
  {
    k == 0 ||
    match n
    case GetAttr(obj, _) => !obj.VarRef? && Exceeds(obj, k - 1)
    case Has(obj, _) => !obj.VarRef? && Exceeds(obj, k - 1)
    case SetLit(elts) => exists i :: 0 <= i < |elts| && Exceeds(elts[i], k - 1)
    case RecordLit(entries) => exists i :: 0 <= i < |entries| && Exceeds(entries[i].value, k - 1)
    case Bin(op, l, r) => Exceeds(l, k - 1) || (op != And && op != Or && Exceeds(r, k - 1))
    case Not(e) => Exceeds(e, k - 1)
    case Neg(e) => Exceeds(e, k - 1)
    case Like(obj, _) => Exceeds(obj, k - 1)
    case Call(obj, _, arg) => Exceeds(obj, k - 1) || (arg.Some? && Exceeds(arg.value, k - 1))
    case Is(obj, _, _) => Exceeds(obj, k - 1)
    case If(c, x, y) => Exceeds(c, k - 1) || (Exceeds(x, k - 1) && Exceeds(y, k - 1))
    case _ => false
  }

  /** Then the guarded result is an error, in every environment. */
  lemma {:induction false} ExceedsErrs(n: Node, env: Env, k: nat)
    requires Exceeds(n, k)
    ensures Eval(n, env, Left(k)) == ErrorV
    decreases n, 1
  {
    hide EvalBody, Exceeds;
    if k > 0 {
      ExceedsBody(n, env, k - 1);
    }
  }

  lemma {:induction false} ExceedsBody(n: Node, env: Env, k: nat)
    requires Exceeds(n, k + 1)
    ensures EvalBody(n, env, Left(k)) == ErrorV
    decreases n, 0
  {
    hide Eval, LogicOf, StrictOf, NotOf, NegOf, LikeOf, AttrOf, HasOf, Call0Of, Call1Of, IsOf, IfOf, ExtOf, Lookup, VarAttrs;
    ErrorsSpread();
    match n {
      case GetAttr(obj, _) => ExceedsErrs(obj, env, k);
      case Has(obj, _) => ExceedsErrs(obj, env, k);
      case SetLit(elts) =>
        var i :| 0 <= i < |elts| && Exceeds(elts[i], k);
        ExceedsErrs(elts[i], env, k);
        ElementErrs(elts, i, env, Left(k));
      case RecordLit(entries) =>
        var i :| 0 <= i < |entries| && Exceeds(entries[i].value, k);
        ExceedsErrs(entries[i].value, env, k);
        EntryErrs(entries, i, env, Left(k));
      case Bin(_, l, r) =>
        if Exceeds(l, k) {
          ExceedsErrs(l, env, k);
        } else {
          ExceedsErrs(r, env, k);
        }
      case Not(e) => ExceedsErrs(e, env, k);
      case Neg(e) => ExceedsErrs(e, env, k);
      case Like(obj, _) => ExceedsErrs(obj, env, k);
      case Call(obj, _, arg) =>
        if Exceeds(obj, k) {
          ExceedsErrs(obj, env, k);
        } else {
          ExceedsErrs(arg.value, env, k);
        }
      case Is(obj, _, _) => ExceedsErrs(obj, env, k);
      case If(c, x, y) =>
        if Exceeds(c, k) {
          ExceedsErrs(c, env, k);
        } else {
          ExceedsErrs(x, env, k);
          ExceedsErrs(y, env, k);
        }
    }
  }

  lemma ErrorsSpread()
    ensures forall op, v :: LogicOf(op, ErrorV, v) == ErrorV
    ensures forall op, v, env :: StrictOf(op, ErrorV, v, env) == ErrorV
    ensures forall op, v, env :: StrictOf(op, v, ErrorV, env) == ErrorV
    ensures forall name, env :: AttrOf(ErrorV, name, env) == ErrorV
    ensures forall name, env :: HasOf(ErrorV, name, env) == ErrorV
    ensures forall pattern :: LikeOf(ErrorV, pattern) == ErrorV
    ensures NotOf(ErrorV) == ErrorV && NegOf(ErrorV) == ErrorV
    ensures forall callee :: Call0Of(callee, ErrorV) == ErrorV
    ensures forall callee, v :: Call1Of(callee, ErrorV, v) == ErrorV
    ensures forall callee, v :: Call1Of(callee, v, ErrorV) == ErrorV
    ensures forall ty, r, env :: IsOf(ErrorV, ty, r, env) == ErrorV
    ensures forall a, b :: IfOf(ErrorV, a, b) == ErrorV
    ensures forall c :: IfOf(c, ErrorV, ErrorV) == ErrorV
  {
  }

  lemma {:induction false} ElementErrs(elts: seq<Node>, i: nat, env: Env, b: Budget)
    requires i < |elts| && Eval(elts[i], env, b).ErrorV?
    ensures EvalAll(elts, env, b).None?
    decreases |elts|
  {
    hide Eval;
    if i > 0 {
      ElementErrs(elts[1..], i - 1, env, b);
    }
  }

  lemma {:induction false} EntryErrs(entries: seq<Entry>, i: nat, env: Env, b: Budget)
    requires i < |entries| && Eval(entries[i].value, env, b).ErrorV?
    ensures EvalEntries(entries, env, b).None?
    decreases |entries|
  {
    hide Eval;
    if i > 0 {
      EntryErrs(entries[1..], i - 1, env, b);
    }
  }

  /** No subexpression of n may be skipped: no logical operator, conditional or `is .. in`. */
  predicate Straight(n: Node) {
    match n
    case GetAttr(obj, _) => Straight(obj)
    case Has(obj, _) => Straight(obj)
    case SetLit(elts) => forall i :: 0 <= i < |elts| ==> Straight(elts[i])
    case RecordLit(entries) => forall i :: 0 <= i < |entries| ==> Straight(entries[i].value)
    case Bin(op, l, r) => op != And && op != Or && Straight(l) && Straight(r)
    case Not(e) => Straight(e)
    case Neg(e) => Straight(e)
    case Like(obj, _) => Straight(obj)
    case Call(obj, _, arg) => Straight(obj) && (arg.Some? ==> Straight(arg.value))
    case Is(obj, _, e) => Straight(obj) && e.None?
    case If(_, _, _) => false
    case _ => true
  }

  /** For such expressions one of the two cases holds. */
  lemma {:induction false} StraightDecides(n: Node, k: nat)
    requires Straight(n)
    ensures Within(n, k) <==> !Exceeds(n, k)
    decreases n
  {
    if k > 0 {
      match n {
        case GetAttr(obj, _) => StraightDecides(obj, k - 1);
        case Has(obj, _) => StraightDecides(obj, k - 1);
        case SetLit(elts) =>
          forall i | 0 <= i < |elts| ensures Within(elts[i], k - 1) <==> !Exceeds(elts[i], k - 1) {
            StraightDecides(elts[i], k - 1);
          }
        case RecordLit(entries) =>
          forall i | 0 <= i < |entries| ensures Within(entries[i].value, k - 1) <==> !Exceeds(entries[i].value, k - 1) {
            StraightDecides(entries[i].value, k - 1);
          }
        case Bin(_, l, r) =>
          StraightDecides(l, k - 1);
          StraightDecides(r, k - 1);
        case Not(e) => StraightDecides(e, k - 1);
        case Neg(e) => StraightDecides(e, k - 1);
        case Like(obj, _) => StraightDecides(obj, k - 1);
        case Call(obj, _, arg) =>
          StraightDecides(obj, k - 1);
          if arg.Some? {
            StraightDecides(arg.value, k - 1);
          }
        case Is(obj, _, _) => StraightDecides(obj, k - 1);
        case _ =>
      }
    }
  }

  /**
   * With k frames left, exactly: an expression none of whose parts may be skipped has its unguarded value
   * if it nests at most k evaluations, and is an error otherwise.
   */
  lemma StraightBounded(n: Node, env: Env, k: nat)
    requires Straight(n)
    ensures Eval(n, env, Left(k)) == if Within(n, k) then Eval(n, env, Unlimited) else ErrorV
  {
    hide Eval, Within, Exceeds, Straight;
    StraightDecides(n, k);
    if Within(n, k) {
      BoundedEval(n, env, k);
    } else {
      ExceedsErrs(n, env, k);
    }
  }

  // ---- What the guard does not promise ----

  /** A chain of k `&&` operators over `true`. */
  function Conjunction(k: nat): Node {
    if k == 0 then BoolLit(true) else Bin(And, Conjunction(k - 1), BoolLit(true))
  }

  lemma {:induction false} ConjunctionValue(k: nat, env: Env, b: Budget)
    ensures Eval(Conjunction(k), env, b) == if b.Left? && b.frames <= k then ErrorV else BoolV(true)
    decreases k
  {
    if k > 0 && b != Left(0) {
      ConjunctionValue(k - 1, env, Spend(b));
      var l, r := Eval(Conjunction(k - 1), env, Spend(b)), Eval(BoolLit(true), env, Spend(b));
      assert Eval(Conjunction(k), env, b) == LogicOf(And, l, r);
      assert Spend(b) != Left(0) ==> r == EvalBody(BoolLit(true), env, Spend(Spend(b))) == BoolV(true);
    }
  }

  lemma {:induction false} ConjunctionFits(k: nat, depth: nat)
    ensures RoundTrip.WellFormed(Conjunction(k)) && RoundTrip.Spine(Printer.AND, Conjunction(k)) == k
    ensures k <= Grammar.MAX_BINOP_CHAIN ==> RoundTrip.FitsRaw(Conjunction(k), depth, 0)
    decreases k
  {
    if k > 0 {
      ConjunctionFits(k - 1, depth);
    }
  }

  /**
   * The comment at NXE_CEDAR_MAX_EVAL_DEPTH says that every expression the parser accepts evaluates
   * without meeting the guard. A chain of 128 to 256 operators is accepted and does meet it, shorter ones do not.
   */
  lemma GuardCanFire(k: nat, env: Env)
    requires k <= 256
    ensures Grammar.ParseExpr(Printer.Print(Conjunction(k), Printer.EXPR, []), 0, 0) == Some((Conjunction(k), []))
    ensures Eval(Conjunction(k), env, Unlimited) == BoolV(true)
    ensures Eval(Conjunction(k), env, Left(MAX_EVAL_DEPTH)) == if k < 128 then BoolV(true) else ErrorV
  {
    ConjunctionFits(k, 1);
    ConjunctionValue(k, env, Unlimited);
    ConjunctionValue(k, env, Left(MAX_EVAL_DEPTH));
    RoundTrip.ParsePrint(Conjunction(k), [], 0, 0);
  }
}
