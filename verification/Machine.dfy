/**
 * The evaluator as the source runs it: recursive calls under a mutable depth counter that every path
 * restores, loops over sets and parents, early returns on errors.
 */
module Machine {
  import opened Common
  import opened Syntax
  import opened Values
  import opened Semantics
  import Cidr
  import Datetime
  import Decimal
  import Duration
  import Equality
  import Ipv6
  import Pattern

  /** What the guard leaves when `depth` evaluations are under way. */
  function Remaining(depth: nat): Budget {
    Left(if depth >= MAX_EVAL_DEPTH then 0 else MAX_EVAL_DEPTH - depth)
  }

  // ---- Queries ----

  method FindAttribute(attrs: seq<Attr>, name: string) returns (r: Option<Value>)
    ensures r == FindAttr(attrs, name)
  {
    var i := 0;
    assert attrs[0..] == attrs;
    while i < |attrs|
      invariant 0 <= i <= |attrs|
      invariant FindAttr(attrs[i..], name) == FindAttr(attrs, name)
    {
      assert attrs[i..][1..] == attrs[i + 1..];
      if attrs[i].name == name {
        return Some(attrs[i].value);
      }
      i := i + 1;
    }
    return None;
  }

  method EntityInTarget(ty: string, id: string, parents: seq<Ref>, target: Ref) returns (b: bool)
    ensures b == InTarget(ty, id, parents, target)
  {
    if ty == target.ty && id == target.id {
      return true;
    }
    var i := 0;
    while i < |parents|
      invariant 0 <= i <= |parents|
      invariant target !in parents[..i]
    {
      if parents[i].ty == target.ty && parents[i].id == target.id {
        return true;
      }
      i := i + 1;
    }
    return false;
  }

  /** nxe_cedar_eval_in: the whole set is scanned, so that the position of a non-entity does not matter. */
  method EvalIn(left: Value, right: Value, env: Env) returns (v: Value)
    ensures v == InOf(left, right, env)
  {
    if !left.EntityV? {
      return ErrorV;
    }
    var parents := Parents(left.slot, env);
    match right {
      case EntityV(ty, id, _) =>
        var b := EntityInTarget(left.ty, left.id, parents, Ref(ty, id));
        v := BoolV(b);
      case SetV(elts) =>
        var found := false;
        var i := 0;
        while i < |elts|
          invariant 0 <= i <= |elts| && AllEntities(elts[..i])
          invariant found == InSome(left.ty, left.id, parents, elts[..i])
        {
          if !elts[i].EntityV? {
            return ErrorV;
          }
          assert elts[..i + 1] == elts[..i] + [elts[i]];
          var b := EntityInTarget(left.ty, left.id, parents, Ref(elts[i].ty, elts[i].id));
          InSomeSnoc(left.ty, left.id, parents, elts, i);
          found := found || b;
          i := i + 1;
        }
        assert elts[..i] == elts;
        v := BoolV(found);
      case _ =>
        v := ErrorV;
    }
  }

  lemma InSomeSnoc(ty: string, id: string, parents: seq<Ref>, elts: seq<Value>, i: nat)
    requires i < |elts| && AllEntities(elts[..i + 1])
    ensures AllEntities(elts[..i])
    ensures InSome(ty, id, parents, elts[..i + 1])
         == (InSome(ty, id, parents, elts[..i]) || InTarget(ty, id, parents, Ref(elts[i].ty, elts[i].id)))
  {
    var s, t := elts[..i], elts[..i + 1];
    assert forall j :: 0 <= j < i ==> s[j] == t[j];
    assert t[i] == elts[i];
    if j :| 0 <= j < |s| && InTarget(ty, id, parents, Ref(s[j].ty, s[j].id)) {
      assert InTarget(ty, id, parents, Ref(t[j].ty, t[j].id));
    }
  }

  /** The inner loop of containsAll and containsAny. */
  method FindEqual(x: Value, elts: seq<Value>) returns (r: Equality.Tri)
    ensures r == Among(x, elts)
  {
    var j := 0;
    assert elts[0..] == elts;
    while j < |elts|
      invariant 0 <= j <= |elts|
      invariant Among(x, elts[j..]) == Among(x, elts)
    {
      assert elts[j..][0] == elts[j] && elts[j..][1..] == elts[j + 1..];
      var e := Equality.ValueEquals(x, elts[j], 0);
      if e != Equality.No {
        return e;
      }
      j := j + 1;
    }
    return Equality.No;
  }

  method EvalContains(elts: seq<Value>, x: Value) returns (v: Value)
    ensures v == FromTri(Contains(elts, x))
  {
    var i := 0;
    assert elts[0..] == elts;
    while i < |elts|
      invariant 0 <= i <= |elts|
      invariant Contains(elts[i..], x) == Contains(elts, x)
    {
      assert elts[i..][0] == elts[i] && elts[i..][1..] == elts[i + 1..];
      var e := Equality.ValueEquals(elts[i], x, 0);
      if e == Equality.Fail {
        return ErrorV;
      }
      if e == Equality.Yes {
        return BoolV(true);
      }
      i := i + 1;
    }
    return BoolV(false);
  }

  method EvalContainsAll(elts: seq<Value>, xs: seq<Value>) returns (v: Value)
    ensures v == FromTri(ContainsAll(elts, xs))
  {
    var i := 0;
    assert xs[0..] == xs;
    while i < |xs|
      invariant 0 <= i <= |xs|
      invariant ContainsAll(elts, xs[i..]) == ContainsAll(elts, xs)
    {
      assert xs[i..][0] == xs[i] && xs[i..][1..] == xs[i + 1..];
      var e := FindEqual(xs[i], elts);
      if e == Equality.Fail {
        return ErrorV;
      }
      if e == Equality.No {
        return BoolV(false);
      }
      i := i + 1;
    }
    return BoolV(true);
  }

  method EvalContainsAny(elts: seq<Value>, xs: seq<Value>) returns (v: Value)
    ensures v == FromTri(ContainsAny(elts, xs))
  {
    var i := 0;
    assert xs[0..] == xs;
    while i < |xs|
      invariant 0 <= i <= |xs|
      invariant ContainsAny(elts, xs[i..]) == ContainsAny(elts, xs)
    {
      assert xs[i..][0] == xs[i] && xs[i..][1..] == xs[i + 1..];
      var e := FindEqual(xs[i], elts);
      if e == Equality.Fail {
        return ErrorV;
      }
      if e == Equality.Yes {
        return BoolV(true);
      }
      i := i + 1;
    }
    return BoolV(false);
  }

  /** A method with an argument, once both operands have values. */
  method EvalCall(callee: string, v: Value, arg: Value) returns (r: Value)
    requires !v.ErrorV? && !arg.ErrorV?
    ensures r == Call1Of(callee, v, arg)
  {
    if callee == "containsAll" || callee == "containsAny" {
      if !v.SetV? || !arg.SetV? {
        return ErrorV;
      }
      if callee == "containsAll" {
        r := EvalContainsAll(v.elts, arg.elts);
      } else {
        r := EvalContainsAny(v.elts, arg.elts);
      }
    } else if callee == "contains" {
      if !v.SetV? {
        return ErrorV;
      }
      r := EvalContains(v.elts, arg);
    } else if callee == "isInRange" {
      r := if v.IpV? && arg.IpV? then BoolV(Cidr.Contains(v.ip, arg.ip)) else ErrorV;
    } else if v.DatetimeV? {
      r := DatetimeCall(callee, v.ms, arg);
    } else {
      r := DecimalCall(callee, v, arg);
    }
  }

  /** The operators on two values. */
  method EvalStrict(op: Op, a: Value, b: Value, env: Env) returns (v: Value)
    requires !a.ErrorV? && !b.ErrorV?
    ensures v == StrictOf(op, a, b, env)
  {
    hide InOf, CompareOf, ArithOf, Equality.Equal;
    if op == Eq || op == Ne {
      v := EvalEquals(op, a, b);
    } else if op == In {
      v := EvalIn(a, b, env);
    } else if op == Lt || op == Gt || op == Le || op == Ge {
      v := CompareOf(op, a, b);
    } else {
      v := ArithOf(op, a, b);
    }
  }

  /** `==` and `!=`, which only fail where the comparison does. */
  method EvalEquals(op: Op, a: Value, b: Value) returns (v: Value)
    requires op == Eq || op == Ne
    ensures v == if op == Eq then EqOf(a, b) else Negated(EqOf(a, b))
  {
    hide Equality.Equal;
    var e := Equality.ValueEquals(a, b, 0);
    if e == Equality.Fail {
      return ErrorV;
    }
    v := BoolV((e == Equality.Yes) == (op == Eq));
  }

  lemma StrictInErrors(op: Op, env: Env)
    ensures forall b :: StrictOf(op, ErrorV, b, env) == ErrorV
    ensures forall a :: StrictOf(op, a, ErrorV, env) == ErrorV
  {
  }

  method EvalExt(kind: ExtKind, text: string) returns (v: Value)
    ensures v == ExtOf(kind, text)
  {
    match kind {
      case IpKind =>
        var r := Ipv6.MakeIp(text);
        v := if r.None? then ErrorV else IpV(r.value);
      case DecimalKind =>
        var r := Decimal.MakeDecimal(text);
        v := if r.None? then ErrorV else DecimalV(r.value);
      case DatetimeKind =>
        var r := Datetime.MakeDatetime(text);
        v := if r.None? then ErrorV else DatetimeV(r.value);
      case DurationKind =>
        var r := Duration.MakeDuration(text);
        v := if r.None? then ErrorV else DurationV(r.value);
    }
  }

  // ---- The recursive evaluator ----

  class Machine {
    const env: Env
    var evalDepth: nat

    constructor (env: Env)
      ensures this.env == env && evalDepth == 0
    {
      this.env := env;
      evalDepth := 0;
    }

    /** nxe_cedar_expr_eval: the depth counter is the same after the call as before, on every path. */
    method Evaluate(n: Node) returns (v: Value)
      modifies this`evalDepth
      ensures v == Eval(n, env, Remaining(old(evalDepth)))
      ensures evalDepth == old(evalDepth)
      decreases n, 2
    {
      if evalDepth >= MAX_EVAL_DEPTH {
        return ErrorV;
      }
      evalDepth := evalDepth + 1;
      v := EvaluateBody(n);
      evalDepth := evalDepth - 1;
    }

    method EvaluateBody(n: Node) returns (v: Value)
      modifies this`evalDepth
      ensures v == EvalBody(n, env, Remaining(old(evalDepth)))
      ensures evalDepth == old(evalDepth)
      decreases n, 1
    {
      hide Eval, LogicOf, StrictOf, NotOf, NegOf, LikeOf, AttrOf, HasOf, Call0Of, Call1Of, IsOf, IfOf, ExtOf, Lookup, VarAttrs;
      match n {
        case BoolLit(b) =>
          v := BoolV(b);
        case StrLit(s) =>
          v := StrV(s);
        case LongLit(i) =>
          v := LongV(i);
        case ExtLit(kind, text) =>
          v := EvalExt(kind, text);
        case EntityRef(ty, id) =>
          v := EntityV(ty, id, RequestSlot(env, ty, id));
        case VarRef(w) =>
          v := VarValue(w, env);
        case GetAttr(obj, name) =>
          v := EvaluateAttr(obj, name);
        case Has(obj, name) =>
          v := EvaluateHas(obj, name);
        case SetLit(elts) =>
          var vs := EvaluateAll(elts);
          v := if vs.None? then ErrorV else SetV(vs.value);
        case RecordLit(entries) =>
          var attrs := EvaluateEntries(entries);
          v := if attrs.None? then ErrorV else RecordV(attrs.value);
        case Bin(op, l, r) =>
          if op == And || op == Or {
            v := EvaluateLogic(op, l, r);
          } else {
            v := EvaluateStrict(op, l, r);
          }
        case Not(e) =>
          var x := Evaluate(e);
          v := NotOf(x);
        case Neg(e) =>
          var x := Evaluate(e);
          v := NegOf(x);
        case Like(obj, pattern) =>
          v := EvaluateLike(obj, pattern);
        case Call(obj, callee, arg) =>
          v := EvaluateCall(obj, callee, arg);
        case Is(obj, ty, e) =>
          v := EvaluateIs(obj, ty, e);
        case If(c, x, y) =>
          v := EvaluateIf(c, x, y);
      }
    }

    /** nxe_cedar_eval_attr_access, with its fast path for a bare variable. */
    method EvaluateAttr(obj: Node, name: string) returns (v: Value)
      modifies this`evalDepth
      ensures v == if obj.VarRef? then Lookup(VarAttrs(obj.v, env), name)
                   else AttrOf(Eval(obj, env, Remaining(old(evalDepth))), name, env)
      ensures evalDepth == old(evalDepth)
      decreases obj, 3
    {
      hide Eval;
      var attrs: seq<Attr>;
      if obj.VarRef? {
        attrs := VarAttrs(obj.v, env);
      } else {
        var o := Evaluate(obj);
        if AttrsOf(o, env).None? {
          return ErrorV;
        }
        attrs := AttrsOf(o, env).value;
      }
      var r := FindAttribute(attrs, name);
      v := if r.None? then ErrorV else r.value;
    }

    method EvaluateHas(obj: Node, name: string) returns (v: Value)
      modifies this`evalDepth
      ensures v == if obj.VarRef? then BoolV(FindAttr(VarAttrs(obj.v, env), name).Some?)
                   else HasOf(Eval(obj, env, Remaining(old(evalDepth))), name, env)
      ensures evalDepth == old(evalDepth)
      decreases obj, 3
    {
      hide Eval;
      var attrs: seq<Attr>;
      if obj.VarRef? {
        attrs := VarAttrs(obj.v, env);
      } else {
        var o := Evaluate(obj);
        if AttrsOf(o, env).None? {
          return ErrorV;
        }
        attrs := AttrsOf(o, env).value;
      }
      var r := FindAttribute(attrs, name);
      v := BoolV(r.Some?);
    }

    method EvaluateLogic(op: Op, l: Node, r: Node) returns (v: Value)
      modifies this`evalDepth
      ensures v == LogicOf(op, Eval(l, env, Remaining(old(evalDepth))), Eval(r, env, Remaining(old(evalDepth))))
      ensures evalDepth == old(evalDepth)
      decreases Bin(op, l, r), 0
    {
      hide Eval, EvalBody, Remaining;
      var a := Evaluate(l);
      if !a.BoolV? {
        return ErrorV;
      }
      if a.b == (op == Or) {
        return a;
      }
      var b := Evaluate(r);
      v := if b.BoolV? then b else ErrorV;
    }

    method EvaluateStrict(op: Op, l: Node, r: Node) returns (v: Value)
      modifies this`evalDepth
      ensures v == StrictOf(op, Eval(l, env, Remaining(old(evalDepth))), Eval(r, env, Remaining(old(evalDepth))), env)
      ensures evalDepth == old(evalDepth)
      decreases Bin(op, l, r), 0
    {
      hide Eval, EvalBody, Remaining, StrictOf;
      StrictInErrors(op, env);
      var a := Evaluate(l);
      if a.ErrorV? {
        return a;
      }
      var b := Evaluate(r);
      if b.ErrorV? {
        return b;
      }
      v := EvalStrict(op, a, b, env);
    }

    method EvaluateLike(obj: Node, pattern: string) returns (v: Value)
      modifies this`evalDepth
      ensures v == LikeOf(Eval(obj, env, Remaining(old(evalDepth))), pattern)
      ensures evalDepth == old(evalDepth)
      decreases obj, 3
    {
      hide Eval;
      var s := Evaluate(obj);
      if !s.StrV? {
        return ErrorV;
      }
      var b := Pattern.LikeMatch(s.s, pattern);
      v := BoolV(b);
    }

    method EvaluateCall(obj: Node, callee: string, arg: Option<Node>) returns (v: Value)
      modifies this`evalDepth
      ensures v == if arg.None? then Call0Of(callee, Eval(obj, env, Remaining(old(evalDepth))))
                   else Call1Of(callee, Eval(obj, env, Remaining(old(evalDepth))),
                                Eval(arg.value, env, Remaining(old(evalDepth))))
      ensures evalDepth == old(evalDepth)
      decreases Call(obj, callee, arg), 0
    {
      hide Eval, DatetimeCall, DecimalCall, Contains, ContainsAll, ContainsAny;
      var o := Evaluate(obj);
      if o.ErrorV? {
        return o;
      }
      if arg.None? {
        return Call0Of(callee, o);
      }
      var a := Evaluate(arg.value);
      if a.ErrorV? {
        return a;
      }
      v := EvalCall(callee, o, a);
    }

    /** nxe_cedar_eval_is_check. */
    method EvaluateIs(obj: Node, ty: string, e: Option<Node>) returns (v: Value)
      modifies this`evalDepth
      ensures v == IsOf(Eval(obj, env, Remaining(old(evalDepth))), ty,
                        if e.None? then None else Some(Eval(e.value, env, Remaining(old(evalDepth)))), env)
      ensures evalDepth == old(evalDepth)
      decreases Is(obj, ty, e), 0
    {
      hide Eval, InOf;
      var left := Evaluate(obj);
      if !left.EntityV? {
        return ErrorV;
      }
      if left.ty != ty {
        return BoolV(false);
      }
      if e.None? {
        return BoolV(true);
      }
      var right := Evaluate(e.value);
      if right.ErrorV? {
        return right;
      }
      v := EvalIn(left, right, env);
    }

    method EvaluateIf(c: Node, x: Node, y: Node) returns (v: Value)
      modifies this`evalDepth
      ensures v == IfOf(Eval(c, env, Remaining(old(evalDepth))), Eval(x, env, Remaining(old(evalDepth))),
                        Eval(y, env, Remaining(old(evalDepth))))
      ensures evalDepth == old(evalDepth)
      decreases If(c, x, y), 0
    {
      hide Eval;
      var b := Evaluate(c);
      if !b.BoolV? {
        return ErrorV;
      }
      if b.b {
        v := Evaluate(x);
      } else {
        v := Evaluate(y);
      }
      v := Untag(v);
    }

    /** The elements of a set literal, pushed one by one without their tags. */
    method EvaluateAll(elts: seq<Node>) returns (r: Option<seq<Value>>)
      modifies this`evalDepth
      ensures r == EvalAll(elts, env, Remaining(old(evalDepth)))
      ensures evalDepth == old(evalDepth)
      decreases elts, 0
    {
      hide Eval, Untag;
      var vs: seq<Value> := [];
      var i := 0;
      ghost var b := Remaining(evalDepth);
      assert elts[0..] == elts;
      PrependNothing(EvalAll(elts, env, b));
      while i < |elts|
        invariant 0 <= i <= |elts| && evalDepth == old(evalDepth)
        invariant EvalAll(elts, env, b) == Prepend(vs, EvalAll(elts[i..], env, b))
      {
        assert elts[i..][0] == elts[i] && elts[i..][1..] == elts[i + 1..];
        var v := Evaluate(elts[i]);
        if v.ErrorV? {
          return None;
        }
        PrependSnoc(vs, Untag(v), EvalAll(elts[i + 1..], env, b));
        vs := vs + [Untag(v)];
        i := i + 1;
      }
      assert vs + [] == vs;
      return Some(vs);
    }

    method EvaluateEntries(entries: seq<Entry>) returns (r: Option<seq<Attr>>)
      modifies this`evalDepth
      ensures r == EvalEntries(entries, env, Remaining(old(evalDepth)))
      ensures evalDepth == old(evalDepth)
      decreases entries, 0
    {
      hide Eval, Untag;
      var attrs: seq<Attr> := [];
      var i := 0;
      ghost var b := Remaining(evalDepth);
      assert entries[0..] == entries;
      PrependNothing(EvalEntries(entries, env, b));
      while i < |entries|
        invariant 0 <= i <= |entries| && evalDepth == old(evalDepth)
        invariant EvalEntries(entries, env, b) == Prepend(attrs, EvalEntries(entries[i..], env, b))
      {
        assert entries[i..][0] == entries[i] && entries[i..][1..] == entries[i + 1..];
        var v := Evaluate(entries[i].value);
        if v.ErrorV? {
          return None;
        }
        var attr := Attr(entries[i].key, Untag(v));
        PrependSnoc(attrs, attr, EvalEntries(entries[i + 1..], env, b));
        attrs := attrs + [attr];
        i := i + 1;
      }
      assert attrs + [] == attrs;
      return Some(attrs);
    }
  }

  /** What is already collected, before what is still to come. */
  function Prepend<T>(front: seq<T>, rest: Option<seq<T>>): Option<seq<T>> {
    match rest
    case None => None
    case Some(s) => Some(front + s)
  }

  lemma PrependNothing<T>(rest: Option<seq<T>>)
    ensures Prepend([], rest) == rest
  {
    if rest.Some? {
      assert [] + rest.value == rest.value;
    }
  }

  lemma PrependSnoc<T>(front: seq<T>, x: T, rest: Option<seq<T>>)
    ensures Prepend(front + [x], rest) == Prepend(front, Prepend([x], rest))
  {
    if rest.Some? {
      assert front + [x] + rest.value == front + ([x] + rest.value);
    }
  }
}
