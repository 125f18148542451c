/**
 * What the operators mean, over evaluation: for any operands that evaluate to given values, the value of
 * the whole expression, written out case by case. `b` is the budget of the whole expression.
 */
module Operators {
  import opened Common
  import opened IpText
  import opened Syntax
  import opened Values
  import opened Semantics
  import Datetime
  import Decimal
  import Duration
  import Equality
  import Ipv6
  import Pattern

  /** The value of a subexpression of an expression that is evaluated under b. */
  ghost function Sub(n: Node, env: Env, b: Budget): Value
    requires b != Left(0)
  {
    Eval(n, env, Spend(b))
  }

  lemma Unfold(n: Node, env: Env, b: Budget)
    requires b != Left(0)
    ensures Eval(n, env, b) == EvalBody(n, env, Spend(b))
  {
  }

  // ---- Equality of values without members ----

  /** v without what `==` does not look at: the slot of an entity, the unused bytes of an IPv4 address. */
  function Normal(v: Value): Value {
    match v
    case EntityV(ty, id, _) => EntityV(ty, id, NoSlot)
    case IpV(ip) => if ip.v6 then v else IpV(Block(ip.addr[..4] + Zeros(12), ip.prefix, false))
    case _ => v
  }

  predicate SameKind(v: Value, w: Value) {
    && v.StrV? == w.StrV? && v.LongV? == w.LongV? && v.BoolV? == w.BoolV? && v.EntityV? == w.EntityV?
    && v.SetV? == w.SetV? && v.RecordV? == w.RecordV? && v.IpV? == w.IpV? && v.DecimalV? == w.DecimalV?
    && v.DatetimeV? == w.DatetimeV? && v.DurationV? == w.DurationV? && v.ErrorV? == w.ErrorV?
  }

  /** Values without members are equal exactly if they are identical up to that. */
  lemma LeafEquality(v: Value, w: Value, depth: nat)
    requires depth <= 32 && !v.ErrorV? && !w.ErrorV?
    requires !v.SetV? && !v.RecordV?
    ensures Equality.Equal(v, w, depth) == if Normal(v) == Normal(w) then Equality.Yes else Equality.No
  {
    if v.IpV? && w.IpV? && !v.ip.v6 && !w.ip.v6 {
      var a, c := Block(v.ip.addr[..4] + Zeros(12), v.ip.prefix, false), Block(w.ip.addr[..4] + Zeros(12), w.ip.prefix, false);
      assert a.addr[..4] == v.ip.addr[..4] && c.addr[..4] == w.ip.addr[..4];
    }
  }

  /** Values of different kinds are never equal, containers included. */
  lemma KindsDiffer(v: Value, w: Value, depth: nat)
    requires depth <= 32 && !v.ErrorV? && !w.ErrorV? && !SameKind(v, w)
    ensures Equality.Equal(v, w, depth) == Equality.No
  {
  }

  /** `==` and `!=` on such values. */
  lemma EqualLeaves(l: Node, r: Node, env: Env, b: Budget)
    requires b != Left(0) && !Sub(l, env, b).ErrorV? && !Sub(r, env, b).ErrorV?
    requires !Sub(l, env, b).SetV? && !Sub(l, env, b).RecordV?
    ensures Eval(Bin(Eq, l, r), env, b) == BoolV(Normal(Sub(l, env, b)) == Normal(Sub(r, env, b)))
    ensures Eval(Bin(Ne, l, r), env, b) == BoolV(Normal(Sub(l, env, b)) != Normal(Sub(r, env, b)))
  {
    Unfold(Bin(Eq, l, r), env, b);
    Unfold(Bin(Ne, l, r), env, b);
    hide Eval, Normal, Equality.Equal;
    LeafEquality(Sub(l, env, b), Sub(r, env, b), 0);
  }

  // ---- Comparison and arithmetic ----

  /** The value of `l op r` for the four comparisons. */
  ghost predicate Compares(l: Node, r: Node, env: Env, b: Budget, x: int, y: int) {
    && Eval(Bin(Lt, l, r), env, b) == BoolV(x < y)
    && Eval(Bin(Le, l, r), env, b) == BoolV(x <= y)
    && Eval(Bin(Gt, l, r), env, b) == BoolV(x > y)
    && Eval(Bin(Ge, l, r), env, b) == BoolV(x >= y)
  }

  /** Two Longs, two datetimes or two durations compare as their numbers; anything else is an error. */
  lemma Comparisons(l: Node, r: Node, env: Env, b: Budget)
    requires b != Left(0)
    ensures var v, w := Sub(l, env, b), Sub(r, env, b);
      && (v.LongV? && w.LongV? ==> Compares(l, r, env, b, v.n, w.n))
      && (v.DatetimeV? && w.DatetimeV? ==> Compares(l, r, env, b, v.ms, w.ms))
      && (v.DurationV? && w.DurationV? ==> Compares(l, r, env, b, v.length, w.length))
      && (!(v.LongV? && w.LongV?) && !(v.DatetimeV? && w.DatetimeV?) && !(v.DurationV? && w.DurationV?) ==>
            forall op :: op == Lt || op == Le || op == Gt || op == Ge ==> Eval(Bin(op, l, r), env, b) == ErrorV)
  {
    hide Eval, StrictOf;
    forall op: Op | op != And && op != Or
      ensures Eval(Bin(op, l, r), env, b) == StrictOf(op, Sub(l, env, b), Sub(r, env, b), env)
    {
      Strictly(op, l, r, env, b);
    }
    Ordered(Sub(l, env, b), Sub(r, env, b), env);
  }

  lemma Strictly(op: Op, l: Node, r: Node, env: Env, b: Budget)
    requires b != Left(0) && op != And && op != Or
    ensures Eval(Bin(op, l, r), env, b) == StrictOf(op, Sub(l, env, b), Sub(r, env, b), env)
  {
    Unfold(Bin(op, l, r), env, b);
    hide Eval, StrictOf;
  }

  ghost predicate InOrder(v: Value, w: Value, env: Env, x: int, y: int) {
    && StrictOf(Lt, v, w, env) == BoolV(x < y) && StrictOf(Le, v, w, env) == BoolV(x <= y)
    && StrictOf(Gt, v, w, env) == BoolV(x > y) && StrictOf(Ge, v, w, env) == BoolV(x >= y)
  }

  lemma Ordered(v: Value, w: Value, env: Env)
    ensures v.LongV? && w.LongV? ==> InOrder(v, w, env, v.n, w.n)
    ensures v.DatetimeV? && w.DatetimeV? ==> InOrder(v, w, env, v.ms, w.ms)
    ensures v.DurationV? && w.DurationV? ==> InOrder(v, w, env, v.length, w.length)
    ensures !(v.LongV? && w.LongV?) && !(v.DatetimeV? && w.DatetimeV?) && !(v.DurationV? && w.DurationV?) ==>
      forall op :: op == Lt || op == Le || op == Gt || op == Ge ==> StrictOf(op, v, w, env) == ErrorV
  {
    hide EqOf, InOf, ArithOf;
  }

  /** Two Longs: the exact integer, or an error exactly if it needs more than 64 bits. */
  lemma Arithmetic(l: Node, r: Node, env: Env, b: Budget)
    requires b != Left(0)
    ensures var v, w := Sub(l, env, b), Sub(r, env, b);
      if v.LongV? && w.LongV? then
        && Eval(Bin(Plus, l, r), env, b) == Exact(v.n + w.n)
        && Eval(Bin(Minus, l, r), env, b) == Exact(v.n - w.n)
        && Eval(Bin(Mul, l, r), env, b) == Exact(v.n * w.n)
      else
        forall op :: op == Plus || op == Minus || op == Mul ==> Eval(Bin(op, l, r), env, b) == ErrorV
  {
    hide Eval, StrictOf, Exact;
    forall op: Op | op != And && op != Or
      ensures Eval(Bin(op, l, r), env, b) == StrictOf(op, Sub(l, env, b), Sub(r, env, b), env)
    {
      Strictly(op, l, r, env, b);
    }
    Computed(Sub(l, env, b), Sub(r, env, b), env);
  }

  lemma Computed(v: Value, w: Value, env: Env)
    ensures v.LongV? && w.LongV? ==>
      StrictOf(Plus, v, w, env) == Exact(v.n + w.n) && StrictOf(Minus, v, w, env) == Exact(v.n - w.n)
      && StrictOf(Mul, v, w, env) == Exact(v.n * w.n)
    ensures !(v.LongV? && w.LongV?) ==>
      forall op :: op == Plus || op == Minus || op == Mul ==> StrictOf(op, v, w, env) == ErrorV
  {
    hide EqOf, InOf, CompareOf;
  }

  /** z, if it is a 64-bit integer. */
  function Exact(z: int): Value {
    if -0x8000_0000_0000_0000 <= z <= 0x7fff_ffff_ffff_ffff then LongV(z) else ErrorV
  }

  lemma Negation(e: Node, env: Env, b: Budget)
    requires b != Left(0)
    ensures var v := Sub(e, env, b);
      && (v.LongV? && Exact(v.n) != ErrorV ==> Eval(Neg(e), env, b) == Exact(-v.n))
      && (!v.LongV? ==> Eval(Neg(e), env, b) == ErrorV)
  {
    Unfold(Neg(e), env, b);
    hide Eval;
  }

  // ---- Logic ----

  /** `&&`, `||` and `!`: only a Boolean left operand counts, and the right one only if it is needed. */
  lemma Logic(l: Node, r: Node, env: Env, b: Budget)
    requires b != Left(0)
    ensures var v, w := Sub(l, env, b), Sub(r, env, b);
      && (v == BoolV(false) ==> Eval(Bin(And, l, r), env, b) == BoolV(false))
      && (v == BoolV(true) ==> Eval(Bin(And, l, r), env, b) == if w.BoolV? then w else ErrorV)
      && (v == BoolV(true) ==> Eval(Bin(Or, l, r), env, b) == BoolV(true))
      && (v == BoolV(false) ==> Eval(Bin(Or, l, r), env, b) == if w.BoolV? then w else ErrorV)
      && (!v.BoolV? ==> Eval(Bin(And, l, r), env, b) == ErrorV == Eval(Bin(Or, l, r), env, b))
      && (v == BoolV(true) ==> Eval(Not(l), env, b) == BoolV(false))
      && (v == BoolV(false) ==> Eval(Not(l), env, b) == BoolV(true))
      && (!v.BoolV? ==> Eval(Not(l), env, b) == ErrorV)
  {
    Unfold(Bin(And, l, r), env, b);
    Unfold(Bin(Or, l, r), env, b);
    Unfold(Not(l), env, b);
    hide Eval;
  }

  /** A conditional has the value of the branch that its condition chooses, whatever the other one is. */
  lemma Conditional(c: Node, x: Node, y: Node, env: Env, b: Budget)
    requires b != Left(0)
    ensures var v := Sub(c, env, b);
      && (v == BoolV(true) ==> Eval(If(c, x, y), env, b) == NoTag(Sub(x, env, b)))
      && (v == BoolV(false) ==> Eval(If(c, x, y), env, b) == NoTag(Sub(y, env, b)))
      && (!v.BoolV? ==> Eval(If(c, x, y), env, b) == ErrorV)
  {
    Unfold(If(c, x, y), env, b);
    hide Eval;
  }

  /** An entity keeps its type and id but not its slot; other values are as they are. */
  function NoTag(v: Value): Value {
    match v
    case EntityV(ty, id, _) => EntityV(ty, id, NoSlot)
    case _ => v
  }

  /** `like` with a pattern compiled from raw text is matching that text. */
  lemma LikeRaw(e: Node, raw: string, env: Env, b: Budget)
    requires b != Left(0) && Pattern.Compiled(raw).Some?
    ensures var v, n := Sub(e, env, b), Like(e, Pattern.Compiled(raw).value);
      Eval(n, env, b) == if v.StrV? then BoolV(Pattern.Matches(Pattern.Elems(raw, 0).value, v.s)) else ErrorV
  {
    Unfold(Like(e, Pattern.Compiled(raw).value), env, b);
    hide Eval, Pattern.Matches, Pattern.Compress, Pattern.Elems;
    if Sub(e, env, b).StrV? {
      Pattern.CompiledMeansRaw(raw, Sub(e, env, b).s);
    }
  }

  // ---- Literals and keywords ----

  /** The party that a keyword names. */
  function PartyOf(v: Var, env: Env): Party
    requires v != Context
  {
    match v
    case Principal => env.principal
    case Action => env.action
    case Resource => env.resource
  }

  lemma Literals(s: string, i: int, x: bool, env: Env, b: Budget)
    requires b != Left(0)
    ensures Eval(StrLit(s), env, b) == StrV(s) && Eval(LongLit(i), env, b) == LongV(i) && Eval(BoolLit(x), env, b) == BoolV(x)
  {
    Unfold(StrLit(s), env, b);
    Unfold(LongLit(i), env, b);
    Unfold(BoolLit(x), env, b);
  }

  /** Entity literals and keywords denote entities; `context` is a record. */
  lemma Entities(ty: string, id: string, v: Var, env: Env, b: Budget)
    requires b != Left(0)
    ensures NoTag(Eval(EntityRef(ty, id), env, b)) == EntityV(ty, id, NoSlot)
    ensures v != Context ==>
      NoTag(Eval(VarRef(v), env, b)) == EntityV(PartyOf(v, env).ty, PartyOf(v, env).id, NoSlot)
    ensures Eval(VarRef(Context), env, b) == RecordV(env.context)
  {
    Unfold(EntityRef(ty, id), env, b);
    Unfold(VarRef(v), env, b);
    Unfold(VarRef(Context), env, b);
    hide Eval;
  }

  /** Each extension constructor reads its own kind of text. */
  lemma Extensions(text: string, env: Env, b: Budget)
    requires b != Left(0)
    ensures Eval(ExtLit(IpKind, text), env, b) == if Ipv6.IpOf(text).Some? then IpV(Ipv6.IpOf(text).value) else ErrorV
    ensures Eval(ExtLit(DecimalKind, text), env, b) ==
      if Decimal.DecimalOf(text).Some? then DecimalV(Decimal.DecimalOf(text).value) else ErrorV
    ensures Eval(ExtLit(DatetimeKind, text), env, b) ==
      if Datetime.DatetimeOf(text).Some? then DatetimeV(Datetime.DatetimeOf(text).value) else ErrorV
    ensures Eval(ExtLit(DurationKind, text), env, b) ==
      if Duration.DurationOf(text).Some? then DurationV(Duration.DurationOf(text).value) else ErrorV
  {
    Unfold(ExtLit(IpKind, text), env, b);
    Unfold(ExtLit(DecimalKind, text), env, b);
    Unfold(ExtLit(DatetimeKind, text), env, b);
    Unfold(ExtLit(DurationKind, text), env, b);
    hide Eval, Ipv6.IpOf, Decimal.DecimalOf, Datetime.DatetimeOf, Duration.DurationOf;
  }

  /** A set literal holds the values of its elements in order, without tags, or errs if one of them does. */
  lemma {:induction false} SetElements(elts: seq<Node>, env: Env, b: Budget)
    requires b != Left(0)
    ensures (exists i :: 0 <= i < |elts| && Sub(elts[i], env, b).ErrorV?) ==> Eval(SetLit(elts), env, b) == ErrorV
    ensures (forall i :: 0 <= i < |elts| ==> !Sub(elts[i], env, b).ErrorV?) ==>
      var v := Eval(SetLit(elts), env, b);
      v.SetV? && |v.elts| == |elts| && forall i :: 0 <= i < |elts| ==> v.elts[i] == NoTag(Sub(elts[i], env, b))
  {
    Unfold(SetLit(elts), env, b);
    hide Eval;
    AllElements(elts, env, Spend(b));
  }

  lemma {:induction false} AllElements(elts: seq<Node>, env: Env, b: Budget)
    ensures EvalAll(elts, env, b).None? <==> exists i :: 0 <= i < |elts| && Eval(elts[i], env, b).ErrorV?
    ensures EvalAll(elts, env, b).Some? ==>
      var vs := EvalAll(elts, env, b).value;
      |vs| == |elts| && forall i :: 0 <= i < |elts| ==> vs[i] == NoTag(Eval(elts[i], env, b))
    decreases |elts|
  {
    hide Eval;
    if elts != [] {
      AllElements(elts[1..], env, b);
      assert forall i :: 1 <= i < |elts| ==> elts[i] == elts[1..][i - 1];
    }
  }

  /** A record literal holds the values of its entries under their keys, in order. */
  lemma {:induction false} RecordElements(entries: seq<Entry>, env: Env, b: Budget)
    requires b != Left(0)
    ensures (exists i :: 0 <= i < |entries| && Sub(entries[i].value, env, b).ErrorV?) ==> Eval(RecordLit(entries), env, b) == ErrorV
    ensures (forall i :: 0 <= i < |entries| ==> !Sub(entries[i].value, env, b).ErrorV?) ==>
      var v := Eval(RecordLit(entries), env, b);
      v.RecordV? && |v.attrs| == |entries|
      && forall i :: 0 <= i < |entries| ==> v.attrs[i] == Attr(entries[i].key, NoTag(Sub(entries[i].value, env, b)))
  {
    Unfold(RecordLit(entries), env, b);
    hide Eval;
    AllEntries(entries, env, Spend(b));
  }

  lemma {:induction false} AllEntries(entries: seq<Entry>, env: Env, b: Budget)
    ensures EvalEntries(entries, env, b).None? <==> exists i :: 0 <= i < |entries| && Eval(entries[i].value, env, b).ErrorV?
    ensures EvalEntries(entries, env, b).Some? ==>
      var attrs := EvalEntries(entries, env, b).value;
      |attrs| == |entries|
      && forall i :: 0 <= i < |entries| ==> attrs[i] == Attr(entries[i].key, NoTag(Eval(entries[i].value, env, b)))
    decreases |entries|
  {
    hide Eval;
    if entries != [] {
      AllEntries(entries[1..], env, b);
      assert forall i :: 1 <= i < |entries| ==> entries[i] == entries[1..][i - 1];
    }
  }

  // ---- Attributes ----

  /** `.name` and `has name`, on a list of attributes with unique names: that attribute, if there is one. */
  ghost predicate Reads(obj: Node, name: string, attrs: seq<Attr>, env: Env, b: Budget) {
    && (forall i :: 0 <= i < |attrs| && attrs[i].name == name ==>
          Eval(GetAttr(obj, name), env, b) == attrs[i].value && Eval(Has(obj, name), env, b) == BoolV(true))
    && ((forall i :: 0 <= i < |attrs| ==> attrs[i].name != name) ==>
          Eval(GetAttr(obj, name), env, b) == ErrorV && Eval(Has(obj, name), env, b) == BoolV(false))
  }

  /** Keywords have the attributes of the entity they name, and `context` those of the context. */
  lemma KeywordAttributes(v: Var, name: string, env: Env, b: Budget)
    requires b != Left(0)
    ensures v != Context && UniqueNames(PartyOf(v, env).attrs) ==> Reads(VarRef(v), name, PartyOf(v, env).attrs, env, b)
    ensures UniqueNames(env.context) ==> Reads(VarRef(Context), name, env.context, env, b)
  {
    var attrs := if v == Context then env.context else PartyOf(v, env).attrs;
    KeywordReads(v, name, env, b);
    KeywordReads(Context, name, env, b);
  }

  lemma KeywordReads(v: Var, name: string, env: Env, b: Budget)
    requires b != Left(0)
    ensures var attrs := if v == Context then env.context else PartyOf(v, env).attrs;
      UniqueNames(attrs) ==> Reads(VarRef(v), name, attrs, env, b)
  {
    var attrs := if v == Context then env.context else PartyOf(v, env).attrs;
    Unfold(GetAttr(VarRef(v), name), env, b);
    Unfold(Has(VarRef(v), name), env, b);
    assert VarAttrs(v, env) == attrs;
    hide Eval;
    if UniqueNames(attrs) {
      Found(attrs, name);
    }
  }

  lemma Found(attrs: seq<Attr>, name: string)
    requires UniqueNames(attrs)
    ensures forall i :: 0 <= i < |attrs| && attrs[i].name == name ==> FindAttr(attrs, name) == Some(attrs[i].value)
    ensures (forall i :: 0 <= i < |attrs| ==> attrs[i].name != name) ==> FindAttr(attrs, name) == None
  {
    forall i | 0 <= i < |attrs| && attrs[i].name == name ensures FindAttr(attrs, name) == Some(attrs[i].value) {
      Equality.FindAttrUnique(attrs, i);
    }
  }

  /** Records have their own attributes; a value that is neither a record nor an entity has none. */
  lemma RecordAttributes(obj: Node, name: string, env: Env, b: Budget)
    requires b != Left(0) && !obj.VarRef?
    ensures var v := Sub(obj, env, b);
      && (v.RecordV? && UniqueNames(v.attrs) ==> Reads(obj, name, v.attrs, env, b))
      && (!v.RecordV? && !v.EntityV? ==> Eval(GetAttr(obj, name), env, b) == ErrorV == Eval(Has(obj, name), env, b))
  {
    Unfold(GetAttr(obj, name), env, b);
    Unfold(Has(obj, name), env, b);
    hide Eval;
    var v := Sub(obj, env, b);
    if v.RecordV? && UniqueNames(v.attrs) {
      Found(v.attrs, name);
    }
  }

  /** An entity literal has the attributes of the first request entity with that identity, and none otherwise. */
  lemma LiteralAttributes(ty: string, id: string, name: string, env: Env, b: Budget)
    requires b != Left(0) && Spend(b) != Left(0)
    ensures var obj := EntityRef(ty, id);
      if ty == env.principal.ty && id == env.principal.id then
        UniqueNames(env.principal.attrs) ==> Reads(obj, name, env.principal.attrs, env, b)
      else if ty == env.action.ty && id == env.action.id then
        UniqueNames(env.action.attrs) ==> Reads(obj, name, env.action.attrs, env, b)
      else if ty == env.resource.ty && id == env.resource.id then
        UniqueNames(env.resource.attrs) ==> Reads(obj, name, env.resource.attrs, env, b)
      else Eval(GetAttr(obj, name), env, b) == ErrorV == Eval(Has(obj, name), env, b)
  {
    LiteralParty(ty, id, name, env, b);
    hide Eval, Reads, UniqueNames, AttrOf, HasOf, FindAttr;
  }

  lemma LiteralParty(ty: string, id: string, name: string, env: Env, b: Budget)
    requires b != Left(0) && Spend(b) != Left(0)
    ensures var obj, p := EntityRef(ty, id), PartyAt(RequestSlot(env, ty, id), env);
      if p.Some? then UniqueNames(p.value.attrs) ==> Reads(obj, name, p.value.attrs, env, b)
      else Eval(GetAttr(obj, name), env, b) == ErrorV == Eval(Has(obj, name), env, b)
  {
    var obj := EntityRef(ty, id);
    Unfold(GetAttr(obj, name), env, b);
    Unfold(Has(obj, name), env, b);
    Unfold(obj, env, Spend(b));
    hide Eval, RequestSlot, PartyAt;
    var p := PartyAt(RequestSlot(env, ty, id), env);
    if p.Some? && UniqueNames(p.value.attrs) {
      Found(p.value.attrs, name);
    }
  }
}
