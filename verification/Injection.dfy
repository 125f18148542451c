/**
 * What evaluation sees of a context that was built: an attribute that was added evaluates like the literal
 * of its value, under its own keyword and name only, and paths through nested records lead to what was
 * stored there.
 */
module Injection {
  import opened Syntax
  import opened Values
  import opened Semantics
  import opened Operators
  import opened Builder

  /** The identities and ancestors of a request. */
  datatype Names = Names(p: Ref, a: Ref, r: Ref, pp: seq<Ref>, ap: seq<Ref>, rp: seq<Ref>)

  ghost function Built(g: Graph, builder: ContextBuilder, n: Names): Env
    requires Forest(g) && g.roots == builder.Roots()
  {
    Request(g, builder, n.p, n.a, n.r, n.pp, n.ap, n.rp)
  }

  /** The container of the attributes that a keyword has. */
  function RootOf(v: Var, builder: ContextBuilder): Container {
    match v
    case Principal => builder.principal
    case Action => builder.action
    case Resource => builder.resource
    case Context => builder.context
  }

  predicate FourRoots(builder: ContextBuilder) {
    && builder.principal !in {builder.action, builder.resource, builder.context}
    && builder.action !in {builder.resource, builder.context} && builder.resource != builder.context
  }

  /** The literal that denotes an added scalar. */
  function LiteralOf(input: Input): Node {
    match input
    case StrIn(s) => StrLit(s)
    case LongIn(i) => LongLit(i)
    case BoolIn(x) => BoolLit(x)
    case EntityIn(ty, id) => EntityRef(ty, id)
    case ExtIn(kind, text) => ExtLit(kind, text)
  }

  /** An added scalar is the value of its literal, without a tag; it is malformed exactly if that errs. */
  lemma ParsedIsLiteral(input: Input, env: Env, b: Budget)
    requires b != Left(0)
    ensures Parse(input) == NoTag(Eval(LiteralOf(input), env, b))
  {
    Unfold(LiteralOf(input), env, b);
    hide Eval;
    if input.ExtIn? {
      ExtSimple(input.kind, input.text);
    }
  }

  /** The attributes of a keyword are the members of its container. */
  lemma RootAttributes(g: Graph, builder: ContextBuilder, n: Names, v: Var, name: string, b: Budget)
    requires Forest(g) && g.roots == builder.Roots() && b != Left(0)
    ensures RootOf(v, builder) in g.cells && ValueOf(g, RootOf(v, builder)).RecordV?
    ensures UniqueNames(ValueOf(g, RootOf(v, builder)).attrs)
    ensures Reads(VarRef(v), name, ValueOf(g, RootOf(v, builder)).attrs, Built(g, builder, n), b)
  {
    RootIsRecord(g, RootOf(v, builder));
    hide Forest, ValueOf, Reads, Eval, UniqueNames;
    KeywordReads(v, name, Built(g, builder, n), b);
  }

  lemma RootIsRecord(g: Graph, c: Container)
    requires Forest(g) && c in g.roots
    ensures c in g.cells && ValueOf(g, c).RecordV? && UniqueNames(ValueOf(g, c).attrs) && g.level[c] == 0
  {
    ValueShape(g, c);
  }

  /** A scalar added under a new name: that attribute has the value of its literal. */
  lemma AddedAttribute(g: Graph, builder: ContextBuilder, n: Names, v: Var, name: string, input: Input, b: Budget)
    requires Forest(g) && g.roots == builder.Roots() && b != Left(0)
    requires !HasName(g.cells[RootOf(v, builder)].members, name) && !Parse(input).ErrorV?
    ensures var g' := Push(g, RootOf(v, builder), Member(name, Scalar(Parse(input))));
      && Forest(g')
      && Eval(GetAttr(VarRef(v), name), Built(g', builder, n), b)
           == NoTag(Eval(LiteralOf(input), Built(g', builder, n), b))
      && Eval(Has(VarRef(v), name), Built(g', builder, n), b) == BoolV(true)
  {
    var c := RootOf(v, builder);
    RootIsRecord(g, c);
    PushVisible(g, c, name, Parse(input));
    var g' := Push(g, c, Member(name, Scalar(Parse(input))));
    var attrs, attrs' := ValueOf(g, c).attrs, ValueOf(g', c).attrs;
    assert attrs'[|attrs|] == Attr(name, Parse(input));
    RootAttributes(g', builder, n, v, name, b);
    ParsedIsLiteral(input, Built(g', builder, n), b);
    hide Forest, ValueOf, Eval, Parse;
  }

  /** Other attributes, and those of the other keywords, are as before. */
  lemma OtherAttributes(g: Graph, builder: ContextBuilder, n: Names, v: Var, name: string, x: Value, w: Var, other: string, b: Budget)
    requires Forest(g) && g.roots == builder.Roots() && b != Left(0) && FourRoots(builder) && IsScalar(x)
    requires !HasName(g.cells[RootOf(v, builder)].members, name) && (v != w || name != other)
    ensures RootOf(v, builder) in g.cells
    ensures var g' := Push(g, RootOf(v, builder), Member(name, Scalar(x)));
      && Forest(g')
      && Eval(GetAttr(VarRef(w), other), Built(g', builder, n), b) == Eval(GetAttr(VarRef(w), other), Built(g, builder, n), b)
      && Eval(Has(VarRef(w), other), Built(g', builder, n), b) == Eval(Has(VarRef(w), other), Built(g, builder, n), b)
  {
    OtherMembers(g, builder, v, name, x, w, other);
    var d := RootOf(w, builder);
    var g' := Push(g, RootOf(v, builder), Member(name, Scalar(x)));
    RootAttributes(g, builder, n, w, other, b);
    RootAttributes(g', builder, n, w, other, b);
    hide Forest, ValueOf, Eval, Reads, Built, Push, FourRoots, HasName, IsScalar;
    SameReads(VarRef(w), other, ValueOf(g, d).attrs, ValueOf(g', d).attrs, Built(g, builder, n), Built(g', builder, n), b);
  }

  /** What a push leaves in the containers of the keywords. */
  lemma OtherMembers(g: Graph, builder: ContextBuilder, v: Var, name: string, x: Value, w: Var, other: string)
    requires Forest(g) && g.roots == builder.Roots() && FourRoots(builder) && IsScalar(x)
    requires RootOf(v, builder) in g.cells
    requires !HasName(g.cells[RootOf(v, builder)].members, name) && (v != w || name != other)
    ensures var g', d := Push(g, RootOf(v, builder), Member(name, Scalar(x))), RootOf(w, builder);
      && Forest(g') && g'.roots == g.roots && d in g.cells && d in g'.cells
      && ValueOf(g, d).RecordV? && ValueOf(g', d).RecordV?
      && (ValueOf(g', d).attrs == ValueOf(g, d).attrs
          || exists a: Attr :: a.name != other && ValueOf(g', d).attrs == ValueOf(g, d).attrs + [a])
  {
    var c, d := RootOf(v, builder), RootOf(w, builder);
    RootIsRecord(g, c);
    RootIsRecord(g, d);
    PushVisible(g, c, name, x);
    var g' := Push(g, c, Member(name, Scalar(x)));
    if v != w {
      assert c != d;
      PushInvisible(g, g', c, d);
    }
    hide Forest, ValueOf;
  }

  lemma SameReads(obj: Node, name: string, attrs: seq<Attr>, attrs': seq<Attr>, env: Env, env': Env, b: Budget)
    requires Reads(obj, name, attrs, env, b) && Reads(obj, name, attrs', env', b)
    requires attrs' == attrs || exists a: Attr :: a.name != name && attrs' == attrs + [a]
    ensures Eval(GetAttr(obj, name), env', b) == Eval(GetAttr(obj, name), env, b)
    ensures Eval(Has(obj, name), env', b) == Eval(Has(obj, name), env, b)
  {
    hide Eval;
    if i :| 0 <= i < |attrs| && attrs[i].name == name {
      assert attrs'[i] == attrs[i];
    } else {
      forall i | 0 <= i < |attrs'| ensures attrs'[i].name != name {
        assert i < |attrs| ==> attrs'[i] == attrs[i];
      }
    }
  }

  // ---- Paths ----

  /** Following the names from container c leads to the scalar x. */
  ghost predicate Leads(g: Graph, c: Container, names: seq<string>, x: Value)
    requires Forest(g) && c in g.cells
    decreases |names|, 0
  {
    && names != [] && !g.cells[c].isSet
    && exists i: nat :: i < |g.cells[c].members| && g.cells[c].members[i].name == names[0]
         && LeadsFrom(g, c, i, names[1..], x)
  }

  ghost predicate LeadsFrom(g: Graph, c: Container, i: nat, names: seq<string>, x: Value)
    requires Forest(g) && c in g.cells && i < |g.cells[c].members|
    decreases |names|, 1
  {
    match g.cells[c].members[i].item
    case Scalar(v) => names == [] && v == x
    case Nested(d) => MemberFits(g, c, i) && d in g.cells && Leads(g, d, names, x)
  }

  /** obj.n1.n2... */
  function Path(obj: Node, names: seq<string>): Node
    decreases |names|
  {
    if names == [] then obj else Path(GetAttr(obj, names[0]), names[1..])
  }

  /** The path expression evaluates to what is stored at the end of the path. */
  lemma PathReads(g: Graph, builder: ContextBuilder, n: Names, v: Var, names: seq<string>, x: Value)
    requires Forest(g) && g.roots == builder.Roots() && RootOf(v, builder) in g.cells
    requires Leads(g, RootOf(v, builder), names, x)
    ensures Eval(Path(VarRef(v), names), Built(g, builder, n), Unlimited) == x
  {
    var c, env := RootOf(v, builder), Built(g, builder, n);
    var i: nat :| i < |g.cells[c].members| && g.cells[c].members[i].name == names[0] && LeadsFrom(g, c, i, names[1..], x);
    RootAttributes(g, builder, n, v, names[0], Unlimited);
    StoredAttr(g, c, i);
    assert Eval(GetAttr(VarRef(v), names[0]), env, Unlimited) == ItemOf(g, c, i);
    Follow(g, env, GetAttr(VarRef(v), names[0]), c, i, names[1..], x);
  }

  lemma StoredAttr(g: Graph, c: Container, i: nat)
    requires Forest(g) && c in g.cells && !g.cells[c].isSet && i < |g.cells[c].members|
    ensures var attrs := ValueOf(g, c).attrs;
      |attrs| == |g.cells[c].members| && attrs[i] == Attr(g.cells[c].members[i].name, ItemOf(g, c, i))
  {
    hide Forest;
  }

  lemma {:induction false} Follow(g: Graph, env: Env, obj: Node, c: Container, i: nat, names: seq<string>, x: Value)
    requires Forest(g) && c in g.cells && i < |g.cells[c].members| && !obj.VarRef?
    requires Eval(obj, env, Unlimited) == ItemOf(g, c, i) && LeadsFrom(g, c, i, names, x)
    ensures Eval(Path(obj, names), env, Unlimited) == x
    decreases |names|
  {
    hide Eval, Forest, UniqueNames;
    match g.cells[c].members[i].item {
      case Scalar(v) =>
      case Nested(d) =>
        var j: nat :| j < |g.cells[d].members| && g.cells[d].members[j].name == names[0] && LeadsFrom(g, d, j, names[1..], x);
        ValueShape(g, d);
        StoredAttr(g, d, j);
        assert ItemOf(g, c, i) == ValueOf(g, d);
        RecordAttributes(obj, names[0], env, Unlimited);
        assert Sub(obj, env, Unlimited) == Eval(obj, env, Unlimited);
        Follow(g, env, GetAttr(obj, names[0]), d, j, names[1..], x);
    }
  }
}
