/**
 * The recursive-descent expression parser, in the source's form: one mutable token cursor, two nesting
 * counters and a sticky error flag. Every method is proved to compute the function of the same name in
 * Grammar, to restore both counters on every return, and to terminate.
 */
module Parser {
  import opened Common
  import opened Digits
  import opened Syntax
  import G = Grammar
  import Pattern

  class Parser {
    const input: seq<Token>
    var pos: nat
    var depth: nat
    var recDepth: nat
    var error: bool

    constructor (tokens: seq<Token>)
      ensures Valid() && Rest() == tokens && depth == recDepth == 0
      ensures error == G.Head(tokens).ErrorToken?
    {
      input := tokens;
      pos, depth, recDepth := 0, 0, 0;
      error := |tokens| > 0 && tokens[0].ErrorToken?;
    }

    ghost predicate Valid()
      reads this
    {
      pos <= |input| && (G.Head(input[pos..]).ErrorToken? ==> error)
    }

    function Rest(): seq<Token>
      requires pos <= |input|
      reads this
    {
      input[pos..]
    }

    function Current(): (t: Token)
      requires pos <= |input|
      reads this
      ensures t == G.Head(Rest())
    {
      if pos < |input| then input[pos] else Eof
    }

    /** The flag is raised exactly when `spec` fails; otherwise r is its node and the cursor is at its rest. */
    ghost predicate Agrees<T>(spec: Option<(T, seq<Token>)>, r: Option<T>)
      reads this
    {
      && Valid()
      && (error <==> spec.None?)
      && (spec.Some? ==> r == Some(spec.value.0) && Rest() == spec.value.1)
    }

    method Advance()
      requires Valid() && pos < |input|
      modifies this`pos, this`error
      ensures Valid() && pos == old(pos) + 1 && Rest() == old(Rest())[1..]
      ensures error == (old(error) || G.Advance(old(Rest())).None?)
      ensures !error ==> G.Advance(old(Rest())) == Some(Rest())
    {
      pos := pos + 1;
      if Current().ErrorToken? {
        error := true;
      }
    }

    method Expect(t: Token)
      requires Valid() && t != Eof
      modifies this`pos, this`error
      ensures Valid() && old(pos) <= pos <= old(pos) + 1
      ensures error == (old(error) || G.Expect(old(Rest()), t).None?)
      ensures !error ==> pos == old(pos) + 1 && Rest() == old(Rest())[1..] && G.Expect(old(Rest()), t) == Some(Rest())
    {
      if Current() != t {
        error := true;
        return;
      }
      Advance();
    }

    method ParseExpr() returns (r: Option<Node>)
      requires Valid()
      modifies this
      ensures Valid() && old(pos) <= pos && depth == old(depth) && recDepth == old(recDepth)
      ensures old(error) ==> error
      ensures !old(error) ==> Agrees(G.ParseExpr(old(Rest()), old(depth), old(recDepth)), r)
      decreases |input| - pos, 15
    {
      hide G.ParseChain, G.ParseIf;
      depth := depth + 1;
      if depth > G.MAX_PARSE_DEPTH {
        error := true;
        depth := depth - 1;
        return None;
      }
      if Current() == KwIf {
        r := ParseIf();
      } else {
        r := ParseChain(G.OrLevel);
      }
      depth := depth - 1;
    }

    method ParseIf() returns (r: Option<Node>)
      requires Valid() && Current() == KwIf
      modifies this
      ensures Valid() && old(pos) <= pos && depth == old(depth) && recDepth == old(recDepth)
      ensures old(error) ==> error
      ensures !old(error) ==> Agrees(G.ParseIf(old(Rest()), old(depth), old(recDepth)), r)
      decreases |input| - pos, 0
    {
      hide G.ParseExpr, G.Advance, G.IfBranches;
      Advance();
      var c := ParseExpr();
      if error {
        return None;
      }
      r := ParseBranches(c.value);
    }

    method ParseBranches(c: Node) returns (r: Option<Node>)
      requires Valid() && !error
      modifies this
      ensures Valid() && old(pos) <= pos && depth == old(depth) && recDepth == old(recDepth)
      ensures Agrees(G.IfBranches(c, old(Rest()), old(depth), old(recDepth)), r)
      decreases |input| - pos, 0
    {
      hide G.ParseExpr, G.Advance, G.Expect, G.ElseBranch;
      Expect(KwThen);
      if error {
        return None;
      }
      var a := ParseExpr();
      if error {
        return None;
      }
      r := ParseElse(c, a.value);
    }

    method ParseElse(c: Node, a: Node) returns (r: Option<Node>)
      requires Valid() && !error
      modifies this
      ensures Valid() && old(pos) <= pos && depth == old(depth) && recDepth == old(recDepth)
      ensures Agrees(G.ElseBranch(c, a, old(Rest()), old(depth), old(recDepth)), r)
      decreases |input| - pos, 0
    {
      hide G.ParseExpr, G.ElseBranch, G.Advance, G.Expect;
      ElseStep(c, a, Rest(), depth, recDepth);
      Expect(KwElse);
      if error {
        return None;
      }
      var b := ParseExpr();
      r := if error then None else Some(If(c, a, b.value));
    }

    lemma ElseStep(c: Node, a: Node, ts: seq<Token>, depth: nat, recDepth: nat)
      ensures G.ElseBranch(c, a, ts, depth, recDepth) == (
        var t1 :- G.Expect(ts, KwElse);
        var (b, t2) :- G.ParseExpr(t1, depth, recDepth);
        Some((If(c, a, b), t2)))
    {
      hide G.ParseExpr, G.Expect;
    }

    /** The four chain functions parse_or_expr, parse_and_expr, parse_add_expr and parse_mult_expr. */
    method ParseChain(l: G.Level) returns (r: Option<Node>)
      requires Valid()
      modifies this
      ensures Valid() && old(pos) <= pos && depth == old(depth) && recDepth == old(recDepth)
      ensures old(error) ==> error
      ensures !old(error) ==> Agrees(G.ParseChain(l, old(Rest()), old(depth), old(recDepth)), r)
      decreases |input| - pos, G.Rank(l) + 3
    {
      r := ParseOperand(l);
      if error {
        return None;
      }
      var left := r.value;
      var count := 0;
      while G.InChain(l, Current())
        invariant Valid() && !error && old(pos) < pos && depth == old(depth) && recDepth == old(recDepth)
        invariant !old(error) ==>
          (G.ParseChain(l, old(Rest()), depth, recDepth) == G.ChainRest(l, left, Rest(), count, depth, recDepth))
        invariant old(error) ==> error
        decreases |input| - pos
      {
        count := count + 1;
        if count > G.MAX_BINOP_CHAIN {
          error := true;
          return None;
        }
        var op := Current().op;
        Advance();
        var right := ParseOperand(l);
        if error {
          return None;
        }
        left := Bin(op, left, right.value);
      }
      return Some(left);
    }

    method ParseOperand(l: G.Level) returns (r: Option<Node>)
      requires Valid()
      modifies this
      ensures Valid() && old(pos) <= pos && depth == old(depth) && recDepth == old(recDepth)
      ensures old(error) ==> error
      ensures !old(error) ==> Agrees(G.ParseOperand(l, old(Rest()), old(depth), old(recDepth)), r)
      decreases |input| - pos, G.Rank(l) + 2
    {
      match l
      case OrLevel => r := ParseChain(G.AndLevel);
      case AndLevel => r := ParseRelation();
      case AddLevel => r := ParseChain(G.MulLevel);
      case MulLevel => r := ParseUnary();
    }

    method ParseRelation() returns (r: Option<Node>)
      requires Valid()
      modifies this
      ensures Valid() && old(pos) <= pos && depth == old(depth) && recDepth == old(recDepth)
      ensures old(error) ==> error
      ensures !old(error) ==> Agrees(G.ParseRelation(old(Rest()), old(depth), old(recDepth)), r)
      decreases |input| - pos, 10
    {
      var left := ParseChain(G.AddLevel);
      if error {
        return None;
      }
      match Current() {
        case KwHas => r := ParseHas(left.value);
        case KwIs => r := ParseIs(left.value);
        case KwLike => r := ParseLike(left.value);
        case Oper(op) =>
          if !G.IsRelOp(op) {
            return left;
          }
          Advance();
          var right := ParseChain(G.AddLevel);
          if error {
            return None;
          }
          r := Some(Bin(op, left.value, right.value));
        case _ => r := left;
      }
    }

    method ParseHas(left: Node) returns (r: Option<Node>)
      requires Valid() && Current() == KwHas
      modifies this
      ensures Valid() && old(pos) <= pos && depth == old(depth) && recDepth == old(recDepth)
      ensures old(error) ==> error
      ensures !old(error) ==> Agrees(G.RelationRest(left, old(Rest()), old(depth), old(recDepth)), r)
      decreases |input| - pos
    {
      Advance();
      var attr;
      if Current().Str? {
        attr := ConsumeAttrNameString();
      } else if G.IdentName(Current()).Some? {
        attr := G.IdentName(Current());
        Advance();
      } else {
        error := true;
      }
      if error {
        return None;
      }
      return Some(Has(left, attr.value));
    }

    method ParseIs(left: Node) returns (r: Option<Node>)
      requires Valid() && Current() == KwIs
      modifies this
      ensures Valid() && old(pos) <= pos && depth == old(depth) && recDepth == old(recDepth)
      ensures old(error) ==> error
      ensures !old(error) ==> Agrees(G.RelationRest(left, old(Rest()), old(depth), old(recDepth)), r)
      decreases |input| - pos, 0
    {
      Advance();
      var ty := ParseTypeName();
      if error {
        return None;
      }
      if Current() == Oper(In) {
        Advance();
        var e := ParseChain(G.AddLevel);
        if error {
          return None;
        }
        return Some(Is(left, ty.value, e));
      }
      return Some(Is(left, ty.value, None));
    }

    method ParseLike(left: Node) returns (r: Option<Node>)
      requires Valid() && Current() == KwLike
      modifies this
      ensures Valid() && old(pos) <= pos && depth == old(depth) && recDepth == old(recDepth)
      ensures old(error) ==> error
      ensures !old(error) ==> Agrees(G.RelationRest(left, old(Rest()), old(depth), old(recDepth)), r)
      decreases |input| - pos
    {
      Advance();
      if !Current().Str? {
        error := true;
        return None;
      }
      var pattern := Pattern.Compile(Current().raw);
      if pattern.None? {
        error := true;
        return None;
      }
      Advance();
      return Some(Like(left, pattern.value));
    }

    /** A string token where the `\*` escape is not allowed. */
    method ConsumeAttrNameString() returns (r: Option<string>)
      requires Valid()
      modifies this`pos, this`error
      ensures Valid() && old(pos) <= pos <= old(pos) + 1
      ensures error == (old(error) || G.PlainString(G.Head(old(Rest()))).None? || G.Advance(old(Rest())).None?)
      ensures !error ==> r == G.PlainString(G.Head(old(Rest()))) && pos == old(pos) + 1 && G.Advance(old(Rest())) == Some(Rest())
    {
      if !Current().Str? || Current().starEscape {
        error := true;
        return None;
      }
      r := Some(Current().value);
      Advance();
    }

    method ParseTypeName() returns (r: Option<string>)
      requires Valid()
      modifies this
      ensures Valid() && old(pos) <= pos && depth == old(depth) && recDepth == old(recDepth)
      ensures old(error) ==> error
      ensures !old(error) ==> Agrees(G.ParseTypeName(old(Rest())), r)
      decreases |input| - pos
    {
      if !Current().Ident? {
        error := true;
        return None;
      }
      var name, parts := Current().name, 1;
      Advance();
      while Current() == ColonColon
        invariant Valid() && old(pos) < pos && depth == old(depth) && recDepth == old(recDepth)
        invariant old(error) ==> error
        invariant !old(error) && error ==> G.ParseTypeName(old(Rest())).None?
        invariant !error ==> G.ParseTypeName(old(Rest())) == G.TypeNameRest(name, parts, Rest())
        decreases |input| - pos
      {
        Advance();
        if !Current().Ident? {
          error := true;
          return None;
        }
        parts := parts + 1;
        if parts > G.MAX_TYPE_PARTS {
          error := true;
          return None;
        }
        name := name + "::" + Current().name;
        Advance();
      }
      return Some(name);
    }

    method ParseUnary() returns (r: Option<Node>)
      requires Valid()
      modifies this
      ensures Valid() && old(pos) <= pos && depth == old(depth) && recDepth == old(recDepth)
      ensures old(error) ==> error
      ensures !old(error) ==> Agrees(G.ParseUnary(old(Rest()), old(depth), old(recDepth)), r)
      decreases |input| - pos, 4
    {
      if Current() == Oper(Minus) {
        Advance();
        if Current().Number? {
          var n := ParseNegLong(Current().digits);
          if n.None? {
            error := true;
            return None;
          }
          Advance();
          return Some(LongLit(n.value));
        }
        r := ParseOperandOfUnary();
        if error {
          return None;
        }
        return Some(Neg(r.value));
      }
      if Current() == Bang {
        Advance();
        r := ParseOperandOfUnary();
        if error {
          return None;
        }
        return Some(Not(r.value));
      }
      r := ParseMember();
    }

    /** The operand of `!` and of a minus sign that is not folded: one nesting level deeper. */
    method ParseOperandOfUnary() returns (r: Option<Node>)
      requires Valid()
      modifies this
      ensures Valid() && old(pos) <= pos && depth == old(depth) && recDepth == old(recDepth)
      ensures old(error) ==> error
      ensures !old(error) ==> Agrees(
        if old(depth) + 1 > G.MAX_PARSE_DEPTH then None
        else G.ParseUnary(old(Rest()), old(depth) + 1, old(recDepth)), r)
      decreases |input| - pos, 5
    {
      depth := depth + 1;
      if depth > G.MAX_PARSE_DEPTH {
        error := true;
        depth := depth - 1;
        return None;
      }
      r := ParseUnary();
      depth := depth - 1;
    }

    method ParseMember() returns (r: Option<Node>)
      requires Valid()
      modifies this
      ensures Valid() && old(pos) <= pos && depth == old(depth) && recDepth == old(recDepth)
      ensures old(error) ==> error
      ensures !old(error) ==> Agrees(G.ParseMember(old(Rest()), old(depth), old(recDepth)), r)
      decreases |input| - pos, 3
    {
      hide G.ParsePrimary, G.ParseExpr, G.ParseDotStep, G.ParseBracketStep;
      r := ParsePrimary();
      if error {
        return None;
      }
      var node := r.value;
      var chain := 0;
      while Current() == Dot || Current() == LBracket
        invariant Valid() && old(pos) < pos && depth == old(depth) && recDepth == old(recDepth)
        invariant old(error) ==> error
        invariant !old(error) && error ==> G.ParseMember(old(Rest()), depth, recDepth).None?
        invariant !error ==>
          (G.ParseMember(old(Rest()), depth, recDepth) == G.MemberRest(node, Rest(), chain, depth, recDepth))
        decreases |input| - pos
      {
        chain := chain + 1;
        if chain > G.MAX_MEMBER_CHAIN {
          error := true;
          return None;
        }
        var step;
        if Current() == LBracket {
          step := ParseBracketStep(node);
        } else {
          step := ParseDotStep(node);
        }
        if step.None? {
          return None;
        }
        node := step.value;
      }
      return Some(node);
    }

    method ParseBracketStep(obj: Node) returns (r: Option<Node>)
      requires Valid() && Current() == LBracket
      modifies this
      ensures Valid() && old(pos) < pos && depth == old(depth) && recDepth == old(recDepth)
      ensures old(error) ==> error
      ensures !old(error) ==> Agrees(G.ParseBracketStep(obj, old(Rest())), r)
      decreases |input| - pos
    {
      Advance();
      var key := ConsumeAttrNameString();
      if error {
        return None;
      }
      if key.value == "" {
        error := true;
        return None;
      }
      Expect(RBracket);
      if error {
        return None;
      }
      return Some(GetAttr(obj, key.value));
    }

    method ParseDotStep(obj: Node) returns (r: Option<Node>)
      requires Valid() && Current() == Dot
      modifies this
      ensures Valid() && old(pos) < pos && depth == old(depth) && recDepth == old(recDepth)
      ensures old(error) ==> error
      ensures !old(error) ==> Agrees(G.ParseDotStep(obj, old(Rest()), old(depth), old(recDepth)), r)
      decreases |input| - pos, 1
    {
      hide G.ParseCall;
      Advance();
      var name := G.IdentName(Current());
      if name.None? {
        error := true;
        return None;
      }
      Advance();
      if Current() == LParen {
        r := ParseCall(obj, name.value);
        return;
      }
      return Some(GetAttr(obj, name.value));
    }

    /** The argument list of a method call. */
    method ParseCall(obj: Node, name: string) returns (r: Option<Node>)
      requires Valid() && Current() == LParen
      modifies this
      ensures Valid() && old(pos) <= pos && depth == old(depth) && recDepth == old(recDepth)
      ensures old(error) ==> error
      ensures !old(error) ==> Agrees(G.ParseCall(obj, name, old(Rest()), old(depth), old(recDepth)), r)
      decreases |input| - pos, 0
    {
      hide G.ParseExpr, G.Advance;
      Advance();
      var arg := None;
      if Current() != RParen {
        arg := ParseExpr();
        if error {
          return None;
        }
      }
      Expect(RParen);
      if error {
        return None;
      }
      return Some(Call(obj, name, arg));
    }

    method ParsePrimary() returns (r: Option<Node>)
      requires Valid()
      modifies this
      ensures Valid() && old(pos) <= pos && depth == old(depth) && recDepth == old(recDepth)
      ensures old(error) ==> error
      ensures !old(error) ==> Agrees(G.ParsePrimary(old(Rest()), old(depth), old(recDepth)), r)
      decreases |input| - pos, 2
    {
      hide G.ParseExpr, G.ParseEntityRef, G.ParseSet, G.ParseRecord, G.ParseExtension, G.ParseParenthesized;
      match Current() {
        case KwTrue => Advance(); r := Some(BoolLit(true));
        case KwFalse => Advance(); r := Some(BoolLit(false));
        case KwVar(v) => Advance(); r := Some(VarRef(v));
        case Number(digits) =>
          var n := ParseLong(digits);
          if n.None? {
            error := true;
            return None;
          }
          Advance();
          r := Some(LongLit(n.value));
        case Str(value, _, _) =>
          var s := ConsumeAttrNameString();
          if error {
            return None;
          }
          r := Some(StrLit(s.value));
        case KwExt(kind) => r := ParseExtension(kind);
        case Ident(name) =>
          Advance();
          r := ParseEntityRef(name);
        case LParen => r := ParseParenthesized();
        case LBracket => r := ParseSet();
        case LBrace => r := ParseRecord();
        case _ =>
          error := true;
          r := None;
      }
    }

    /** `ip("..")`, `decimal("..")`, `datetime("..")` and `duration("..")`. */
    method ParseExtension(kind: ExtKind) returns (r: Option<Node>)
      requires Valid() && Current() == KwExt(kind)
      modifies this
      ensures Valid() && old(pos) <= pos && depth == old(depth) && recDepth == old(recDepth)
      ensures old(error) ==> error
      ensures !old(error) ==> Agrees(G.ParseExtension(kind, old(Rest())), r)
      decreases |input| - pos
    {
      hide G.Advance, G.Expect, G.PlainString;
      Advance();
      Expect(LParen);
      if error {
        return None;
      }
      var text := ConsumeAttrNameString();
      if error {
        return None;
      }
      Expect(RParen);
      if error {
        return None;
      }
      return Some(ExtLit(kind, text.value));
    }

    method ParseParenthesized() returns (r: Option<Node>)
      requires Valid() && Current() == LParen
      modifies this
      ensures Valid() && old(pos) <= pos && depth == old(depth) && recDepth == old(recDepth)
      ensures old(error) ==> error
      ensures !old(error) ==> Agrees(G.ParseParenthesized(old(Rest()), old(depth), old(recDepth)), r)
      decreases |input| - pos, 0
    {
      hide G.ParseExpr, G.Advance, G.Expect;
      Advance();
      r := ParseExpr();
      if error {
        return None;
      }
      Expect(RParen);
      if error {
        return None;
      }
    }

    /** `{ :: Type } :: "id"`, the first identifier already consumed. */
    method ParseEntityRef(first: string) returns (r: Option<Node>)
      requires Valid()
      modifies this
      ensures Valid() && old(pos) <= pos && depth == old(depth) && recDepth == old(recDepth)
      ensures old(error) ==> error
      ensures !old(error) ==> Agrees(G.ParseEntityRef(first, 1, old(Rest())), r)
      decreases |input| - pos
    {
      hide G.Head, G.Advance, G.PlainString, G.ParseEntityRef;
      var name, parts := first, 1;
      while Current() == ColonColon
        invariant Valid() && old(pos) <= pos && depth == old(depth) && recDepth == old(recDepth)
        invariant old(error) ==> error
        invariant !old(error) && error ==> G.ParseEntityRef(first, 1, old(Rest())).None?
        invariant !error ==> G.ParseEntityRef(first, 1, old(Rest())) == G.ParseEntityRef(name, parts, Rest())
        decreases |input| - pos
      {
        EntityRefStep(name, parts, Rest());
        Advance();
        if Current().Str? {
          var id := ConsumeAttrNameString();
          if error {
            return None;
          }
          return Some(EntityRef(name, id.value));
        }
        if !Current().Ident? {
          error := true;
          return None;
        }
        parts := parts + 1;
        if parts > G.MAX_TYPE_PARTS {
          error := true;
          return None;
        }
        name := name + "::" + Current().name;
        Advance();
      }
      EntityRefStep(name, parts, Rest());
      error := true;
      return None;
    }

    /** One turn of the loop. */
    lemma EntityRefStep(name: string, parts: nat, ts: seq<Token>)
      ensures G.ParseEntityRef(name, parts, ts) == (
        if G.Head(ts) != ColonColon then None else
        var t1 :- G.Advance(ts);
        if G.Head(t1).Str? then
          var id :- G.PlainString(G.Head(t1));
          var t2 :- G.Advance(t1);
          Some((EntityRef(name, id), t2))
        else if G.Head(t1).Ident? && parts + 1 <= G.MAX_TYPE_PARTS then
          var t2 :- G.Advance(t1);
          G.ParseEntityRef(name + "::" + G.Head(t1).name, parts + 1, t2)
        else None)
    {
    }

    method ParseSet() returns (r: Option<Node>)
      requires Valid() && Current() == LBracket
      modifies this
      ensures Valid() && old(pos) <= pos && depth == old(depth) && recDepth == old(recDepth)
      ensures old(error) ==> error
      ensures !old(error) ==> Agrees(G.ParseSet(old(Rest()), old(depth), old(recDepth)), r)
      decreases |input| - pos, 0
    {
      hide G.ParseExpr, G.SetClose;
      Advance();
      if Current() == RBracket {
        Advance();
        return if error then None else Some(SetLit([]));
      }
      var e := ParseExpr();
      if error {
        return None;
      }
      r := ParseElements(e.value);
    }

    /** The loop over the elements after the first, and the closing bracket. */
    method ParseElements(first: Node) returns (r: Option<Node>)
      requires Valid() && !error
      modifies this
      ensures Valid() && old(pos) <= pos && depth == old(depth) && recDepth == old(recDepth)
      ensures Agrees(G.SetClose([first], old(Rest()), old(depth), old(recDepth)), r)
      decreases |input| - pos, 0
    {
      hide G.ParseExpr, G.SetClose, G.Advance;
      var elts := [first];
      while Current() == Comma
        invariant Valid() && !error && old(pos) <= pos && depth == old(depth) && recDepth == old(recDepth)
        invariant G.SetClose([first], old(Rest()), depth, recDepth) == G.SetClose(elts, Rest(), depth, recDepth)
        decreases |input| - pos
      {
        SetCloseStep(elts, Rest(), depth, recDepth);
        if |elts| + 1 > G.MAX_SET_ELEMENTS {
          error := true;
          return None;
        }
        Advance();
        var e := ParseExpr();
        if error {
          return None;
        }
        elts := elts + [e.value];
      }
      SetCloseStep(elts, Rest(), depth, recDepth);
      Expect(RBracket);
      return if error then None else Some(SetLit(elts));
    }

    /** One turn of the loop, or its end. */
    lemma SetCloseStep(elts: seq<Node>, ts: seq<Token>, depth: nat, recDepth: nat)
      ensures G.SetClose(elts, ts, depth, recDepth) == (
        if G.Head(ts) == Comma then
          if |elts| + 1 > G.MAX_SET_ELEMENTS then None else
          var t1 :- G.Advance(ts);
          var (e, t2) :- G.ParseExpr(t1, depth, recDepth);
          G.SetClose(elts + [e], t2, depth, recDepth)
        else
          var t1 :- G.Expect(ts, RBracket);
          Some((SetLit(elts), t1)))
    {
      hide G.ParseExpr, G.Advance, G.Expect;
    }

    method ParseRecord() returns (r: Option<Node>)
      requires Valid() && Current() == LBrace
      modifies this
      ensures Valid() && old(pos) <= pos && depth == old(depth) && recDepth == old(recDepth)
      ensures old(error) ==> error
      ensures !old(error) ==> Agrees(G.ParseRecord(old(Rest()), old(depth), old(recDepth)), r)
      decreases |input| - pos, 1
    {
      recDepth := recDepth + 1;
      if recDepth > G.MAX_RECORD_DEPTH {
        error := true;
        recDepth := recDepth - 1;
        return None;
      }
      r := ParseRecordBody();
      recDepth := recDepth - 1;
    }

    /** From `{` to `}`, one record level deeper. */
    method ParseRecordBody() returns (r: Option<Node>)
      requires Valid() && Current() == LBrace && 0 < recDepth <= G.MAX_RECORD_DEPTH
      modifies this
      ensures Valid() && old(pos) <= pos && depth == old(depth) && recDepth == old(recDepth)
      ensures old(error) ==> error
      ensures !old(error) ==> Agrees(G.ParseRecord(old(Rest()), old(depth), old(recDepth) - 1), r)
      decreases |input| - pos, 0
    {
      hide G.ParseExpr, G.ParseEntries;
      Advance();
      if Current() == RBrace {
        Advance();
        return Some(RecordLit([]));
      }
      var entries := ParseEntries();
      if error {
        return None;
      }
      Expect(RBrace);
      if error {
        return None;
      }
      return Some(RecordLit(entries.value));
    }

    /** The entries of a record that is not empty; a comma may follow the last one. */
    method ParseEntries() returns (r: Option<seq<Entry>>)
      requires Valid()
      modifies this
      ensures Valid() && old(pos) <= pos && depth == old(depth) && recDepth == old(recDepth)
      ensures old(error) ==> error
      ensures !old(error) ==> Agrees(G.ParseEntries([], old(Rest()), old(depth), old(recDepth)), r)
      decreases |input| - pos, 1
    {
      hide G.ParseExpr, G.ParseEntry;
      var entries: seq<Entry> := [];
      while true
        invariant Valid() && old(pos) <= pos && depth == old(depth) && recDepth == old(recDepth)
        invariant old(error) ==> error
        invariant !old(error) && error ==> G.ParseEntries([], old(Rest()), depth, recDepth).None?
        invariant !error ==>
          (G.ParseEntries([], old(Rest()), depth, recDepth) == G.ParseEntries(entries, Rest(), depth, recDepth))
        decreases |input| - pos
      {
        var entry := ParseEntry(entries);
        if error {
          return None;
        }
        entries := entries + [entry.value];
        if Current() != Comma {
          break;
        }
        Advance();
        if Current() == RBrace {
          break;
        }
      }
      return Some(entries);
    }

    /** The next entry; rejects a key that is already there. */
    method ParseEntry(entries: seq<Entry>) returns (r: Option<Entry>)
      requires Valid()
      modifies this
      ensures Valid() && old(pos) <= pos && depth == old(depth) && recDepth == old(recDepth)
      ensures old(error) ==> error
      ensures !error ==> old(pos) < pos
      ensures !old(error) ==> Agrees(G.ParseEntry(entries, old(Rest()), old(depth), old(recDepth)), r)
      decreases |input| - pos, 0
    {
      hide G.ParseExpr;
      if |entries| + 1 > G.MAX_RECORD_ENTRIES {
        error := true;
        return None;
      }
      var key := None;
      if Current().Str? {
        key := ConsumeAttrNameString();
      } else if G.IdentName(Current()).Some? {
        key := G.IdentName(Current());
        Advance();
      } else {
        error := true;
      }
      if error {
        return None;
      }
      for i := 0 to |entries|
        invariant Valid() && !error
        invariant forall j :: 0 <= j < i ==> entries[j].key != key.value
      {
        if entries[i].key == key.value {
          error := true;
          return None;
        }
      }
      Expect(Colon);
      if error {
        return None;
      }
      var value := ParseExpr();
      if error {
        return None;
      }
      return Some(Entry(key.value, value.value));
    }
  }
}
