/**
 * What evaluation returns: values without buried errors and with unique record keys, so that `==`
 * between expressions is the equivalence of module Equality.
 */
module Results {
  import opened Common
  import opened Syntax
  import opened Values
  import opened Semantics
  import Equality
  import Grammar
  import Printer
  import RoundTrip

  /** Either the error itself, or a value without errors in it whose records have unique keys. */
  predicate Sound(v: Value) {
    v.ErrorV? || (ErrorFree(v) && UniqueKeys(v))
  }

  predicate SoundAttrs(attrs: seq<Attr>) {
    UniqueNames(attrs) && forall i :: 0 <= i < |attrs| ==> ErrorFree(attrs[i].value) && UniqueKeys(attrs[i].value)
  }

  /** What the injection functions establish. */
  predicate SoundEnv(env: Env) {
    SoundAttrs(env.principal.attrs) && SoundAttrs(env.action.attrs) && SoundAttrs(env.resource.attrs) && SoundAttrs(env.context)
  }

  lemma LookupSound(attrs: seq<Attr>, name: string)
    requires SoundAttrs(attrs)
    ensures Sound(Lookup(attrs, name))
  {
  }

  lemma AttrSound(v: Value, name: string, env: Env)
    requires SoundEnv(env) && Sound(v)
    ensures Sound(AttrOf(v, name, env))
  {
    if AttrsOf(v, env).Some? {
      LookupSound(AttrsOf(v, env).value, name);
    }
  }

  lemma VarSound(v: Var, env: Env)
    requires SoundEnv(env)
    ensures SoundAttrs(VarAttrs(v, env)) && Sound(VarValue(v, env))
  {
  }

  lemma {:induction false} EvalSound(n: Node, env: Env, b: Budget)
    requires SoundEnv(env) && RoundTrip.WellFormed(n)
    ensures Sound(Eval(n, env, b))
    decreases n, 1
  {
    hide EvalBody;
    if b != Left(0) {
      BodySound(n, env, Spend(b));
    }
  }

  lemma {:induction false} BodySound(n: Node, env: Env, b: Budget)
    requires SoundEnv(env) && RoundTrip.WellFormed(n)
    ensures Sound(EvalBody(n, env, b))
    decreases n, 0
  {
    if IsOperator(n) {
      OperatorSimple(n, env, b);
      return;
    }
    hide Eval, AttrOf, Lookup, SoundEnv, VarValue, VarAttrs;
    match n {
      case VarRef(v) =>
        VarSound(v, env);
      case GetAttr(obj, name) =>
        EvalSound(obj, env, b);
        AttrSound(Eval(obj, env, b), name, env);
        if obj.VarRef? {
          VarSound(obj.v, env);
          LookupSound(VarAttrs(obj.v, env), name);
        }
      case SetLit(elts) =>
        AllSound(elts, env, b);
      case RecordLit(entries) =>
        EntriesSound(entries, env, b);
      case If(c, x, y) =>
        EvalSound(x, env, b);
        EvalSound(y, env, b);
      case _ =>
    }
  }

  lemma {:induction false} AllSound(elts: seq<Node>, env: Env, b: Budget)
    requires SoundEnv(env) && forall i :: 0 <= i < |elts| ==> RoundTrip.WellFormed(elts[i])
    ensures EvalAll(elts, env, b).Some? ==>
      forall i :: 0 <= i < |EvalAll(elts, env, b).value| ==>
        ErrorFree(EvalAll(elts, env, b).value[i]) && UniqueKeys(EvalAll(elts, env, b).value[i])
    decreases elts, 2
  {
    hide Eval, SoundEnv;
    if elts != [] {
      EvalSound(elts[0], env, b);
      AllSound(elts[1..], env, b);
    }
  }

  lemma {:induction false} EntriesSound(entries: seq<Entry>, env: Env, b: Budget)
    requires SoundEnv(env) && forall i :: 0 <= i < |entries| ==> RoundTrip.WellFormed(entries[i].value)
    requires RoundTrip.DistinctKeys(entries)
    ensures EvalEntries(entries, env, b).Some? ==> SoundAttrs(EvalEntries(entries, env, b).value)
    decreases entries, 2
  {
    hide Eval, SoundEnv;
    EntryNames(entries, env, b);
    if entries != [] {
      EvalSound(entries[0].value, env, b);
      EntriesSound(entries[1..], env, b);
    }
  }

  lemma {:induction false} EntryNames(entries: seq<Entry>, env: Env, b: Budget)
    ensures EvalEntries(entries, env, b).Some? ==>
      |EvalEntries(entries, env, b).value| == |entries|
      && forall i :: 0 <= i < |entries| ==> EvalEntries(entries, env, b).value[i].name == entries[i].key
    decreases |entries|
  {
    hide Eval;
    if entries != [] {
      EntryNames(entries[1..], env, b);
    }
  }

  /**
   * `l == r` and `l != r`: if the left value is within the limits of comparison, the equivalence and its
   * negation, never an error.
   */
  lemma EqualityMeans(l: Node, r: Node, env: Env, b: Budget)
    requires SoundEnv(env) && RoundTrip.WellFormed(l) && RoundTrip.WellFormed(r) && b != Left(0)
    requires Equality.Shallow(Eval(l, env, Spend(b)), 0) && !Eval(r, env, Spend(b)).ErrorV?
    ensures Eval(Bin(Eq, l, r), env, b) == BoolV(Equality.Same(Eval(l, env, Spend(b)), Eval(r, env, Spend(b))))
    ensures Eval(Bin(Ne, l, r), env, b) == BoolV(!Equality.Same(Eval(l, env, Spend(b)), Eval(r, env, Spend(b))))
  {
    Compared(l, r, env, b);
    hide Eval, EvalBody, Equality.Equal, Equality.Same, ErrorFree, UniqueKeys, SoundEnv, RoundTrip.WellFormed;
    var x, y := Eval(l, env, Spend(b)), Eval(r, env, Spend(b));
    EvalSound(l, env, Spend(b));
    EvalSound(r, env, Spend(b));
    assert !x.ErrorV?;
    hide Equality.Shallow;
    Equality.EqualIsSame(x, y, 0);
  }

  /** `l == l`: true, or an error exactly if the value is beyond the limits of comparison. */
  lemma SelfComparison(l: Node, env: Env, b: Budget)
    requires b != Left(0)
    ensures Eval(Bin(Eq, l, l), env, b) ==
      if Equality.Shallow(Eval(l, env, Spend(b)), 0) then BoolV(true) else ErrorV
  {
    Compared(l, l, env, b);
    hide Eval, Equality.Equal;
    Equality.SelfAnswer(Eval(l, env, Spend(b)), 0);
  }

  /** Comparing with l is an error only if the other operand is. */
  ghost predicate Comparable(l: Node, env: Env, b: Budget)
    requires b != Left(0)
  {
    forall r :: RoundTrip.WellFormed(r) && !Eval(r, env, Spend(b)).ErrorV? ==> !Eval(Bin(Eq, l, r), env, b).ErrorV?
  }

  /** That is so exactly if the value is within the limits. */
  lemma ComparisonExactly(l: Node, env: Env, b: Budget)
    requires SoundEnv(env) && RoundTrip.WellFormed(l) && b != Left(0) && !Eval(l, env, Spend(b)).ErrorV?
    ensures Equality.Shallow(Eval(l, env, Spend(b)), 0) <==> Comparable(l, env, b)
  {
    SelfComparison(l, env, b);
    hide Eval, Equality.Shallow, SoundEnv, RoundTrip.WellFormed;
    if Equality.Shallow(Eval(l, env, Spend(b)), 0) {
      forall r | RoundTrip.WellFormed(r) && !Eval(r, env, Spend(b)).ErrorV? ensures !Eval(Bin(Eq, l, r), env, b).ErrorV? {
        EqualityMeans(l, r, env, b);
      }
    }
  }

  lemma Compared(l: Node, r: Node, env: Env, b: Budget)
    requires b != Left(0)
    ensures Eval(Bin(Eq, l, r), env, b) == StrictOf(Eq, Eval(l, env, Spend(b)), Eval(r, env, Spend(b)), env)
    ensures Eval(Bin(Ne, l, r), env, b) == StrictOf(Ne, Eval(l, env, Spend(b)), Eval(r, env, Spend(b)), env)
  {
    hide StrictOf;
    assert Eval(Bin(Eq, l, r), env, b) == EvalBody(Bin(Eq, l, r), env, Spend(b));
    assert Eval(Bin(Ne, l, r), env, b) == EvalBody(Bin(Ne, l, r), env, Spend(b));
  }

  // ---- The depth limit of equality can be met ----

  /** `true` inside k set brackets. */
  function Nested(k: nat): Node {
    if k == 0 then BoolLit(true) else SetLit([Nested(k - 1)])
  }

  function NestedValue(k: nat): Value {
    if k == 0 then BoolV(true) else SetV([NestedValue(k - 1)])
  }

  lemma {:induction false} NestedEvaluates(k: nat, env: Env)
    ensures Eval(Nested(k), env, Unlimited) == NestedValue(k)
    decreases k
  {
    if k > 0 {
      NestedEvaluates(k - 1, env);
      var elts := [Nested(k - 1)];
      assert elts[1..] == [];
      assert EvalAll(elts, env, Unlimited) == Some([Untag(NestedValue(k - 1))] + []);
      assert Eval(Nested(k), env, Unlimited) == EvalBody(SetLit(elts), env, Unlimited);
    } else {
      assert Eval(Nested(k), env, Unlimited) == EvalBody(BoolLit(true), env, Unlimited);
    }
  }

  lemma {:induction false} NestedShallow(k: nat, depth: nat)
    ensures Equality.Shallow(NestedValue(k), depth) <==> depth + k <= Equality.MAX_EQUALS_DEPTH
    decreases k
  {
    if k > 0 {
      NestedShallow(k - 1, depth + 1);
      assert NestedValue(k).elts == [NestedValue(k - 1)];
      OneElement(NestedValue(k - 1), depth);
    }
  }

  lemma OneElement(v: Value, depth: nat)
    ensures Equality.Shallow(SetV([v]), depth) <==> depth <= Equality.MAX_EQUALS_DEPTH && Equality.Shallow(v, depth + 1)
  {
    var elts := [v];
    assert elts[0] == v;
  }

  lemma {:induction false} NestedFits(k: nat, depth: nat)
    ensures RoundTrip.WellFormed(Nested(k))
    ensures depth <= Grammar.MAX_PARSE_DEPTH ==>
      (RoundTrip.FitsRaw(Nested(k), depth, 0) <==> depth + k <= Grammar.MAX_PARSE_DEPTH)
    decreases k
  {
    if k > 0 {
      NestedFits(k - 1, depth + 1);
      var elts := [Nested(k - 1)];
      assert elts[1..] == [];
      assert RoundTrip.FitElts(elts, depth, 0) <==> RoundTrip.Fits(elts[0], Printer.EXPR, depth, 0);
    }
  }

  /** The comparison of two such set literals. */
  function NestedComparison(k: nat): Node {
    Bin(Eq, Nested(k), Nested(k))
  }

  lemma NestedComparisonFits(k: nat)
    ensures RoundTrip.WellFormed(NestedComparison(k))
    ensures RoundTrip.Fits(NestedComparison(k), Printer.EXPR, 0, 0) <==> k < Grammar.MAX_PARSE_DEPTH
  {
    NestedFits(k, 1);
    var e, n := Nested(k), NestedComparison(k);
    assert e.SetLit? || e.BoolLit?;
    hide Nested, RoundTrip.WellFormed;
    assert RoundTrip.Fits(e, Printer.ADD, 1, 0) <==> RoundTrip.FitsRaw(e, 1, 0);
    assert RoundTrip.FitsRaw(n, 1, 0) <==> RoundTrip.Fits(e, Printer.ADD, 1, 0);
  }

  /**
   * The comment at NXE_CEDAR_MAX_VALUE_EQUALS_DEPTH says that the parser's limits already bound the
   * nesting. The parser accepts comparisons of set literals nested up to 63 deep, but from 33 on such a
   * literal is not equal to itself: the comparison is an error.
   */
  lemma DeepSetsAreNotComparable(k: nat, env: Env)
    ensures Grammar.ParseExpr(Printer.Print(NestedComparison(k), Printer.EXPR, []), 0, 0) ==
      if k < 64 then Some((NestedComparison(k), [])) else None
    ensures Eval(NestedComparison(k), env, Unlimited) == if k <= 32 then BoolV(true) else ErrorV
  {
    hide Eval, Nested, Equality.Shallow, Grammar.ParseExpr, Printer.Print, RoundTrip.WellFormed, RoundTrip.Fits;
    NestedComparisonFits(k);
    RoundTrip.ParsePrint(NestedComparison(k), [], 0, 0);
    NestedEvaluates(k, env);
    NestedShallow(k, 0);
    SelfComparison(Nested(k), env, Unlimited);
  }
}
