/**
 * What the parser returns on the tokens of any text: expressions that keep the limits and can be
 * printed, read from a run of tokens without an error token in it.
 */
module ParserImage {
  import opened Common
  import opened Digits
  import opened Syntax
  import opened Grammar
  import Lexer
  import Pattern
  import Printer
  import RoundTrip

  // ---- Tokens ----

  /** Identifiers are names and not keywords, and the end is not a token of its own. */
  predicate Proper(t: Token) {
    t != Eof && (t.Ident? ==> Lexer.IsName(t.name) && Lexer.Keyword(t.name).None?)
  }

  predicate AllProper(ts: Toks) {
    forall i :: 0 <= i < |ts| ==> Proper(ts[i])
  }

  /** `rest` is what follows in ts after some tokens, and no token read after the first is an error. */
  predicate Consumed(ts: Toks, rest: Toks) {
    |rest| <= |ts| && rest == ts[|ts| - |rest|..]
    && forall i :: 0 < i <= |ts| - |rest| && i < |ts| ==> !ts[i].ErrorToken?
  }

  lemma ConsumedTransitive(a: Toks, b: Toks, c: Toks)
    requires Consumed(a, b) && Consumed(b, c)
    ensures Consumed(a, c)
  {
    var n := |a| - |b|;
    forall i | 0 < i <= |a| - |c| && i < |a| ensures !a[i].ErrorToken? {
      assert i > n ==> b[i - n] == a[i];
    }
  }

  // ---- Expressions ----

  /** Records nest at most r deep in n. */
  predicate RecordsWithin(n: Node, r: nat) {
    match n
    case SetLit(elts) => forall i :: 0 <= i < |elts| ==> RecordsWithin(elts[i], r)
    case RecordLit(entries) => r > 0 && forall i :: 0 <= i < |entries| ==> RecordsWithin(entries[i].value, r - 1)
    case GetAttr(obj, _) => RecordsWithin(obj, r)
    case Call(obj, _, arg) => RecordsWithin(obj, r) && (arg.Some? ==> RecordsWithin(arg.value, r))
    case Bin(_, left, right) => RecordsWithin(left, r) && RecordsWithin(right, r)
    case Not(e) => RecordsWithin(e, r)
    case Neg(e) => RecordsWithin(e, r)
    case Has(obj, _) => RecordsWithin(obj, r)
    case Like(obj, _) => RecordsWithin(obj, r)
    case If(c, a, b) => RecordsWithin(c, r) && RecordsWithin(a, r) && RecordsWithin(b, r)
    case Is(obj, _, e) => RecordsWithin(obj, r) && (e.Some? ==> RecordsWithin(e.value, r))
    case _ => true
  }

  /** A node the parser may return inside recDepth records. */
  predicate Fine(n: Node, recDepth: nat) {
    recDepth <= MAX_RECORD_DEPTH && RoundTrip.WellFormed(n) && RecordsWithin(n, MAX_RECORD_DEPTH - recDepth)
  }

  predicate FineResult(r: Option<(Node, Toks)>, ts: Toks, recDepth: nat) {
    r.Some? ==> Fine(r.value.0, recDepth) && Consumed(ts, r.value.1) && AllProper(r.value.1)
  }

  predicate FineElts(elts: seq<Node>, recDepth: nat) {
    |elts| <= MAX_SET_ELEMENTS && forall i :: 0 <= i < |elts| ==> Fine(elts[i], recDepth)
  }

  predicate FineEntries(entries: seq<Entry>, recDepth: nat) {
    |entries| <= MAX_RECORD_ENTRIES && RoundTrip.DistinctKeys(entries)
    && forall i :: 0 <= i < |entries| ==> Fine(entries[i].value, recDepth)
  }

  // ---- Node by node ----

  lemma FineNodes(a: Node, b: Node, c: Node, op: Op, recDepth: nat)
    requires Fine(a, recDepth) && Fine(b, recDepth) && Fine(c, recDepth)
    ensures Fine(Bin(op, a, b), recDepth) && Fine(If(a, b, c), recDepth)
    ensures Fine(Not(a), recDepth) && Fine(Neg(a), recDepth)
  {
  }

  lemma FineAttr(obj: Node, attr: string, recDepth: nat)
    requires Fine(obj, recDepth)
    ensures Fine(Has(obj, attr), recDepth) && (attr != "" ==> Fine(GetAttr(obj, attr), recDepth))
  {
  }

  lemma FineCall(obj: Node, callee: string, arg: Option<Node>, recDepth: nat)
    requires Fine(obj, recDepth) && Printer.IsPlainName(callee) && (arg.Some? ==> Fine(arg.value, recDepth))
    ensures Fine(Call(obj, callee, arg), recDepth)
  {
  }

  lemma FineIs(obj: Node, ty: string, e: Option<Node>, recDepth: nat)
    requires Fine(obj, recDepth) && RoundTrip.IsTypeName(ty) && (e.Some? ==> Fine(e.value, recDepth))
    ensures Fine(Is(obj, ty, e), recDepth)
  {
  }

  lemma FineLike(obj: Node, raw: string, recDepth: nat)
    requires Fine(obj, recDepth) && Pattern.Compiled(raw).Some?
    ensures Fine(Like(obj, Pattern.Compiled(raw).value), recDepth)
  {
    hide Pattern.Compiled;
    Pattern.CompiledShape(raw);
  }

  lemma FineSet(elts: seq<Node>, recDepth: nat)
    requires FineElts(elts, recDepth) && recDepth <= MAX_RECORD_DEPTH
    ensures Fine(SetLit(elts), recDepth)
  {
  }

  lemma FineRecord(entries: seq<Entry>, recDepth: nat)
    requires FineEntries(entries, recDepth + 1) && recDepth < MAX_RECORD_DEPTH
    ensures Fine(RecordLit(entries), recDepth)
  {
  }

  // ---- Names ----

  /** Names in attribute position can be printed as they are. */
  lemma NamePlain(t: Token)
    requires Proper(t) && IdentName(t).Some?
    ensures Printer.IsPlainName(IdentName(t).value) && IdentName(t).value != ""
  {
    if t.KwExt? {
      var name := ExtName(t.kind);
      assert Lexer.IsName(name) && Lexer.Keyword(name) == Some(KwExt(t.kind)) by {
        match t.kind
        case IpKind =>
        case DecimalKind =>
        case DatetimeKind =>
        case DurationKind =>
      }
    }
  }

  lemma {:induction false} SegmentsOfName(part: string)
    requires ':' !in part
    ensures Printer.Segments(part) == [part]
    decreases |part|
  {
    if part != "" {
      SegmentsOfName(part[1..]);
      assert part == [part[0]] + part[1..];
    }
  }

  lemma SegmentsColons(ty: string)
    ensures Printer.Segments("::" + ty) == [""] + Printer.Segments(ty)
  {
    assert ("::" + ty)[..2] == "::" && ("::" + ty)[2..] == ty;
  }

  lemma SegmentsChar(c: char, ty: string)
    requires c != ':'
    ensures var parts := Printer.Segments(ty); Printer.Segments([c] + ty) == [[c] + parts[0]] + parts[1..]
  {
    assert ([c] + ty)[1..] == ty;
  }

  predicate NoColons(parts: seq<string>) {
    forall i :: 0 <= i < |parts| ==> ':' !in parts[i]
  }

  /** Appending `::part` appends a segment. */
  lemma {:induction false} SegmentsSnoc(ty: string, part: string)
    requires ':' !in part && NoColons(Printer.Segments(ty))
    ensures Printer.Segments(ty + "::" + part) == Printer.Segments(ty) + [part]
    decreases |ty|
  {
    hide *;
    if ty == "" {
      NoSegments(part);
    } else if |ty| >= 2 && ty[..2] == "::" {
      assert ty == "::" + ty[2..];
      SegmentsSecond(ty[2..]);
      SegmentsSnoc(ty[2..], part);
      SnocColons(ty[2..], part);
    } else {
      assert ty == [ty[0]] + ty[1..];
      SegmentsFirst(ty);
      SegmentsSnoc(ty[1..], part);
      SnocChar(ty[0], ty[1..], part);
    }
  }

  lemma NoSegments(part: string)
    requires ':' !in part
    ensures Printer.Segments("" + "::" + part) == Printer.Segments("") + [part]
  {
    SegmentsOfName(part);
    SegmentsColons(part);
    assert "" + "::" + part == "::" + part;
  }

  lemma SnocColons(ty: string, part: string)
    requires Printer.Segments(ty + "::" + part) == Printer.Segments(ty) + [part]
    ensures Printer.Segments("::" + ty + "::" + part) == Printer.Segments("::" + ty) + [part]
  {
    hide Printer.Segments;
    SegmentsColons(ty);
    SegmentsColons(ty + "::" + part);
    assert "::" + ty + "::" + part == "::" + (ty + "::" + part);
  }

  lemma SnocChar(c: char, ty: string, part: string)
    requires c != ':' && Printer.Segments(ty + "::" + part) == Printer.Segments(ty) + [part]
    ensures Printer.Segments([c] + ty + "::" + part) == Printer.Segments([c] + ty) + [part]
  {
    hide Printer.Segments;
    SegmentsChar(c, ty);
    SegmentsChar(c, ty + "::" + part);
    assert [c] + ty + "::" + part == [c] + (ty + "::" + part);
    var parts := Printer.Segments(ty);
    assert (parts + [part])[1..] == parts[1..] + [part];
  }

  lemma SegmentsSecond(ty: string)
    requires NoColons(Printer.Segments("::" + ty))
    ensures NoColons(Printer.Segments(ty))
  {
    hide Printer.Segments;
    SegmentsColons(ty);
    var all := Printer.Segments("::" + ty);
    assert forall i :: 0 <= i < |Printer.Segments(ty)| ==> all[i + 1] == Printer.Segments(ty)[i];
  }

  lemma SegmentsFirst(ty: string)
    requires ty != "" && !(|ty| >= 2 && ty[..2] == "::") && NoColons(Printer.Segments(ty))
    ensures ty[0] != ':' && NoColons(Printer.Segments(ty[1..]))
  {
    var all, parts := Printer.Segments(ty), Printer.Segments(ty[1..]);
    assert all == [[ty[0]] + parts[0]] + parts[1..];
    assert ty[0] == all[0][0] && all[0][0] in all[0];
    forall i | 0 <= i < |parts| ensures ':' !in parts[i] {
      assert i == 0 ==> all[0] == [ty[0]] + parts[0];
      assert i > 0 ==> all[i] == parts[i];
    }
  }

  /** The type names that have been read: `parts` identifiers. */
  predicate TypeSoFar(name: string, parts: nat) {
    |Printer.Segments(name)| == parts && RoundTrip.IsTypeName(name)
  }

  lemma TypeStart(t: Token)
    requires t.Ident? && Proper(t)
    ensures TypeSoFar(t.name, 1)
  {
    SegmentsOfName(t.name);
  }

  lemma TypeMore(name: string, parts: nat, t: Token)
    requires TypeSoFar(name, parts) && t.Ident? && Proper(t) && parts + 1 <= MAX_TYPE_PARTS
    ensures TypeSoFar(name + "::" + t.name, parts + 1)
  {
    hide Printer.Segments, Lexer.Keyword;
    SegmentsSnoc(name, t.name);
  }

  lemma AdvanceFine(ts: Toks)
    requires ts != [] && Advance(ts).Some? && AllProper(ts)
    ensures Consumed(ts, Advance(ts).value) && AllProper(Advance(ts).value)
  {
  }

  lemma HeadProper(ts: Toks)
    requires AllProper(ts)
    ensures ts != [] ==> Proper(Head(ts))
    ensures Head(ts) == Eof <==> ts == []
  {
  }

  lemma ExpectFine(ts: Toks, t: Token)
    requires Expect(ts, t).Some? && AllProper(ts)
    ensures Consumed(ts, Expect(ts, t).value) && AllProper(Expect(ts, t).value)
  {
  }

  /** Reading on from b, which was reached from ts. */
  lemma Then(ts: Toks, b: Toks, c: Toks)
    requires Consumed(ts, b) && Consumed(b, c)
    ensures Consumed(ts, c)
  {
    ConsumedTransitive(ts, b, c);
  }

  // ---- The parser functions ----

  lemma {:induction false} ImageTypeNameRest(name: string, parts: nat, ts: Toks)
    requires AllProper(ts) && TypeSoFar(name, parts) && TypeNameRest(name, parts, ts).Some?
    ensures var (ty, rest) := TypeNameRest(name, parts, ts).value;
      RoundTrip.IsTypeName(ty) && Consumed(ts, rest) && AllProper(rest)
    decreases |ts|
  {
    hide TypeSoFar, RoundTrip.IsTypeName, Consumed, AllProper;
    if Head(ts) != ColonColon {
      TypeNameDone(name, parts, ts);
    } else {
      AdvanceFine(ts);
      var t1 := Advance(ts).value;
      HeadProper(t1);
      AdvanceFine(t1);
      var t2 := Advance(t1).value;
      TypeMore(name, parts, Head(t1));
      Then(ts, t1, t2);
      ImageTypeNameRest(name + "::" + t1[0].name, parts + 1, t2);
      Then(ts, t2, TypeNameRest(name, parts, ts).value.1);
    }
  }

  lemma TypeNameDone(name: string, parts: nat, ts: Toks)
    requires TypeSoFar(name, parts)
    ensures RoundTrip.IsTypeName(name) && Consumed(ts, ts)
  {
  }

  lemma ImageTypeName(ts: Toks)
    requires AllProper(ts) && ParseTypeName(ts).Some?
    ensures var (ty, rest) := ParseTypeName(ts).value; RoundTrip.IsTypeName(ty) && Consumed(ts, rest) && AllProper(rest)
  {
    hide TypeSoFar, RoundTrip.IsTypeName, Consumed, AllProper, TypeNameRest;
    HeadProper(ts);
    AdvanceFine(ts);
    TypeStart(Head(ts));
    ImageTypeNameRest(ts[0].name, 1, Advance(ts).value);
    Then(ts, Advance(ts).value, ParseTypeName(ts).value.1);
  }

  lemma {:induction false} ImageEntityRef(name: string, parts: nat, ts: Toks, recDepth: nat)
    requires AllProper(ts) && TypeSoFar(name, parts) && recDepth <= MAX_RECORD_DEPTH
    ensures FineResult(ParseEntityRef(name, parts, ts), ts, recDepth)
    decreases |ts|
  {
    hide TypeSoFar, RoundTrip.IsTypeName, Consumed, AllProper;
    if ParseEntityRef(name, parts, ts).None? {
      return;
    }
    AdvanceFine(ts);
    var t1 := Advance(ts).value;
    HeadProper(t1);
    AdvanceFine(t1);
    var t2 := Advance(t1).value;
    Then(ts, t1, t2);
    if Head(t1).Str? {
      TypeNameDone(name, parts, ts);
    } else {
      TypeMore(name, parts, Head(t1));
      ImageEntityRef(name + "::" + t1[0].name, parts + 1, t2, recDepth);
      Then(ts, t2, ParseEntityRef(name, parts, ts).value.1);
    }
  }

  lemma {:induction false} ImageExpr(ts: Toks, depth: nat, recDepth: nat)
    requires AllProper(ts) && recDepth <= MAX_RECORD_DEPTH
    ensures FineResult(ParseExpr(ts, depth, recDepth), ts, recDepth)
    decreases |ts|, 13
  {
    if depth + 1 > MAX_PARSE_DEPTH {
      return;
    }
    hide FineResult, ParseIf, ParseChain;
    if Head(ts) == KwIf {
      ImageIf(ts, depth + 1, recDepth);
    } else {
      ImageChain(OrLevel, ts, depth + 1, recDepth);
    }
  }

  lemma {:induction false} ImageIf(ts: Toks, depth: nat, recDepth: nat)
    requires AllProper(ts) && recDepth <= MAX_RECORD_DEPTH && ts != []
    ensures FineResult(ParseIf(ts, depth, recDepth), ts, recDepth)
    decreases |ts|, 0
  {
    hide ParseExpr, Consumed, AllProper, Fine, Advance, Expect;
    if ParseIf(ts, depth, recDepth).None? {
      return;
    }
    AdvanceFine(ts);
    var t1 := Advance(ts).value;
    ImageExpr(t1, depth, recDepth);
    var (c, t2) := ParseExpr(t1, depth, recDepth).value;
    assert IfBranches(c, t2, depth, recDepth).Some?;
    ExpectFine(t2, KwThen);
    var t3 := Expect(t2, KwThen).value;
    ImageExpr(t3, depth, recDepth);
    var (a, t4) := ParseExpr(t3, depth, recDepth).value;
    assert ElseBranch(c, a, t4, depth, recDepth).Some?;
    ExpectFine(t4, KwElse);
    var t5 := Expect(t4, KwElse).value;
    ImageExpr(t5, depth, recDepth);
    var (b, t6) := ParseExpr(t5, depth, recDepth).value;
    FineNodes(c, a, b, Eq, recDepth);
    Then(ts, t1, t2);
    Then(ts, t2, t3);
    Then(ts, t3, t4);
    Then(ts, t4, t5);
    Then(ts, t5, t6);
  }

  lemma {:induction false} ImageChain(l: Level, ts: Toks, depth: nat, recDepth: nat)
    requires AllProper(ts) && recDepth <= MAX_RECORD_DEPTH
    ensures FineResult(ParseChain(l, ts, depth, recDepth), ts, recDepth)
    decreases |ts|, Rank(l) + 1
  {
    hide ParseOperand, ChainRest, Consumed, AllProper, Fine;
    ImageOperand(l, ts, depth, recDepth);
    if ParseOperand(l, ts, depth, recDepth).Some? {
      var (left, t1) := ParseOperand(l, ts, depth, recDepth).value;
      ImageChainRest(l, left, t1, 0, depth, recDepth);
      if ChainRest(l, left, t1, 0, depth, recDepth).Some? {
        Then(ts, t1, ChainRest(l, left, t1, 0, depth, recDepth).value.1);
      }
    }
  }

  lemma {:induction false} ImageOperand(l: Level, ts: Toks, depth: nat, recDepth: nat)
    requires AllProper(ts) && recDepth <= MAX_RECORD_DEPTH
    ensures FineResult(ParseOperand(l, ts, depth, recDepth), ts, recDepth)
    decreases |ts|, Rank(l)
  {
    hide ParseChain, ParseRelation, ParseUnary, FineResult;
    match l
    case OrLevel => ImageChain(AndLevel, ts, depth, recDepth);
    case AndLevel => ImageRelation(ts, depth, recDepth);
    case AddLevel => ImageChain(MulLevel, ts, depth, recDepth);
    case MulLevel => ImageUnary(ts, depth, recDepth);
  }

  lemma {:induction false} ImageChainRest(l: Level, left: Node, ts: Toks, count: nat, depth: nat, recDepth: nat)
    requires AllProper(ts) && Fine(left, recDepth)
    ensures FineResult(ChainRest(l, left, ts, count, depth, recDepth), ts, recDepth)
    decreases |ts|, 0
  {
    hide ParseOperand, Consumed, AllProper, Fine, Advance;
    FineDepth(left, recDepth);
    Stay(ts);
    if !InChain(l, Head(ts)) || ChainRest(l, left, ts, count, depth, recDepth).None? {
      return;
    }
    AdvanceFine(ts);
    var t1 := Advance(ts).value;
    ImageOperand(l, t1, depth, recDepth);
    var (right, t2) := ParseOperand(l, t1, depth, recDepth).value;
    var node := Bin(Head(ts).op, left, right);
    FineNodes(left, right, right, Head(ts).op, recDepth);
    ImageChainRest(l, node, t2, count + 1, depth, recDepth);
    Then(ts, t1, t2);
    Then(ts, t2, ChainRest(l, left, ts, count, depth, recDepth).value.1);
  }

  lemma FineDepth(n: Node, recDepth: nat)
    requires Fine(n, recDepth)
    ensures recDepth <= MAX_RECORD_DEPTH
  {
  }

  lemma Stay(ts: Toks)
    ensures Consumed(ts, ts)
  {
  }

  lemma {:induction false} ImageRelation(ts: Toks, depth: nat, recDepth: nat)
    requires AllProper(ts) && recDepth <= MAX_RECORD_DEPTH
    ensures FineResult(ParseRelation(ts, depth, recDepth), ts, recDepth)
    decreases |ts|, 8
  {
    hide ParseChain, RelationRest, Consumed, AllProper, Fine;
    ImageChain(AddLevel, ts, depth, recDepth);
    if ParseChain(AddLevel, ts, depth, recDepth).Some? {
      var (left, t1) := ParseChain(AddLevel, ts, depth, recDepth).value;
      ImageRelationRest(left, t1, depth, recDepth);
      if RelationRest(left, t1, depth, recDepth).Some? {
        Then(ts, t1, RelationRest(left, t1, depth, recDepth).value.1);
      }
    }
  }

  lemma {:induction false} ImageRelationRest(left: Node, ts: Toks, depth: nat, recDepth: nat)
    requires AllProper(ts) && Fine(left, recDepth)
    ensures FineResult(RelationRest(left, ts, depth, recDepth), ts, recDepth)
    decreases |ts|, 0, 1
  {
    if !Relates(Head(ts)) {
      assert RelationRest(left, ts, depth, recDepth) == Some((left, ts));
    }
    hide Consumed, AllProper, Fine, RelationRest;
    Stay(ts);
    var h := Head(ts);
    if h == KwHas {
      ImageHas(left, ts, depth, recDepth);
    } else if h == KwLike {
      ImageLike(left, ts, depth, recDepth);
    } else if h == KwIs {
      ImageIs(left, ts, depth, recDepth);
    } else if Relates(h) {
      ImageCompare(left, ts, depth, recDepth);
    }
  }

  lemma ImageHas(left: Node, ts: Toks, depth: nat, recDepth: nat)
    requires AllProper(ts) && Fine(left, recDepth) && Head(ts) == KwHas
    ensures FineResult(RelationRest(left, ts, depth, recDepth), ts, recDepth)
  {
    hide Consumed, AllProper, Fine, Advance, PlainString, ExtName;
    FineDepth(left, recDepth);
    if RelationRest(left, ts, depth, recDepth).Some? {
      AdvanceFine(ts);
      var t1 := Advance(ts).value;
      AdvanceFine(t1);
      Then(ts, t1, Advance(t1).value);
      FineAttr(left, RelationRest(left, ts, depth, recDepth).value.0.attr, recDepth);
    }
  }

  lemma ImageLike(left: Node, ts: Toks, depth: nat, recDepth: nat)
    requires AllProper(ts) && Fine(left, recDepth) && Head(ts) == KwLike
    ensures FineResult(RelationRest(left, ts, depth, recDepth), ts, recDepth)
  {
    hide Consumed, AllProper, Fine, Advance, Pattern.Compiled;
    FineDepth(left, recDepth);
    if RelationRest(left, ts, depth, recDepth).Some? {
      AdvanceFine(ts);
      var t1 := Advance(ts).value;
      AdvanceFine(t1);
      Then(ts, t1, Advance(t1).value);
      FineLike(left, t1[0].raw, recDepth);
    }
  }

  lemma {:induction false} ImageCompare(left: Node, ts: Toks, depth: nat, recDepth: nat)
    requires AllProper(ts) && Fine(left, recDepth) && Head(ts).Oper? && IsRelOp(Head(ts).op)
    ensures FineResult(RelationRest(left, ts, depth, recDepth), ts, recDepth)
    decreases |ts|, 0, 0
  {
    hide ParseChain, Consumed, AllProper, Fine, Advance;
    FineDepth(left, recDepth);
    if RelationRest(left, ts, depth, recDepth).Some? {
      AdvanceFine(ts);
      var t1 := Advance(ts).value;
      ImageChain(AddLevel, t1, depth, recDepth);
      var (right, t2) := ParseChain(AddLevel, t1, depth, recDepth).value;
      Then(ts, t1, t2);
      FineNodes(left, right, right, Head(ts).op, recDepth);
    }
  }

  /** The tokens that continue a relation. */
  predicate Relates(t: Token) {
    t == KwHas || t == KwIs || t == KwLike || (t.Oper? && IsRelOp(t.op))
  }

  lemma {:induction false} ImageIs(left: Node, ts: Toks, depth: nat, recDepth: nat)
    requires AllProper(ts) && Fine(left, recDepth) && Head(ts) == KwIs
    ensures FineResult(RelationRest(left, ts, depth, recDepth), ts, recDepth)
    decreases |ts|, 0, 0
  {
    hide ParseChain, ParseTypeName, Consumed, AllProper, Fine, Advance, Pattern.Compiled, PlainString, IdentName, IsRelOp;
    FineDepth(left, recDepth);
    if RelationRest(left, ts, depth, recDepth).None? {
      return;
    }
    AdvanceFine(ts);
    var t1 := Advance(ts).value;
    ImageTypeName(t1);
    var (ty, t2) := ParseTypeName(t1).value;
    Then(ts, t1, t2);
    if Head(t2) == Oper(In) {
      AdvanceFine(t2);
      var t3 := Advance(t2).value;
      ImageChain(AddLevel, t3, depth, recDepth);
      var (e, t4) := ParseChain(AddLevel, t3, depth, recDepth).value;
      Then(ts, t2, t3);
      Then(ts, t3, t4);
      FineIs(left, ty, Some(e), recDepth);
    } else {
      FineIs(left, ty, None, recDepth);
    }
  }

  lemma {:induction false} ImageUnary(ts: Toks, depth: nat, recDepth: nat)
    requires AllProper(ts) && recDepth <= MAX_RECORD_DEPTH
    ensures FineResult(ParseUnary(ts, depth, recDepth), ts, recDepth)
    decreases |ts|, 3
  {
    hide ParseMember, Consumed, AllProper, Fine, Advance;
    if Head(ts) != Oper(Minus) && Head(ts) != Bang {
      ImageMember(ts, depth, recDepth);
      return;
    }
    if ParseUnary(ts, depth, recDepth).None? {
      return;
    }
    AdvanceFine(ts);
    var t1 := Advance(ts).value;
    if Head(ts) == Oper(Minus) && Head(t1).Number? {
      AdvanceFine(t1);
      Then(ts, t1, Advance(t1).value);
      FineLeaf(ParseUnary(ts, depth, recDepth).value.0, recDepth);
    } else {
      ImageUnary(t1, depth + 1, recDepth);
      var (e, t2) := ParseUnary(t1, depth + 1, recDepth).value;
      Then(ts, t1, t2);
      FineNodes(e, e, e, Eq, recDepth);
    }
  }

  lemma FineLeaf(n: Node, recDepth: nat)
    requires recDepth <= MAX_RECORD_DEPTH
    requires n.BoolLit? || n.StrLit? || n.VarRef? || n.ExtLit? || (n.LongLit? && InInt64(n.n))
    ensures Fine(n, recDepth)
  {
  }

  lemma {:induction false} ImageMember(ts: Toks, depth: nat, recDepth: nat)
    requires AllProper(ts) && recDepth <= MAX_RECORD_DEPTH
    ensures FineResult(ParseMember(ts, depth, recDepth), ts, recDepth)
    decreases |ts|, 2
  {
    hide ParsePrimary, MemberRest, Consumed, AllProper, Fine;
    ImagePrimary(ts, depth, recDepth);
    if ParsePrimary(ts, depth, recDepth).Some? {
      var (base, t1) := ParsePrimary(ts, depth, recDepth).value;
      ImageMemberRest(base, t1, 0, depth, recDepth);
      if MemberRest(base, t1, 0, depth, recDepth).Some? {
        Then(ts, t1, MemberRest(base, t1, 0, depth, recDepth).value.1);
      }
    }
  }

  lemma {:induction false} ImageMemberRest(obj: Node, ts: Toks, count: nat, depth: nat, recDepth: nat)
    requires AllProper(ts) && Fine(obj, recDepth)
    ensures FineResult(MemberRest(obj, ts, count, depth, recDepth), ts, recDepth)
    decreases |ts|, 2
  {
    hide ParseStep, Consumed, AllProper, Fine;
    FineDepth(obj, recDepth);
    Stay(ts);
    if (Head(ts) == Dot || Head(ts) == LBracket) && MemberRest(obj, ts, count, depth, recDepth).Some? {
      ImageStep(obj, ts, depth, recDepth);
      var (step, t1) := ParseStep(obj, ts, depth, recDepth).value;
      ImageMemberRest(step, t1, count + 1, depth, recDepth);
      Then(ts, t1, MemberRest(obj, ts, count, depth, recDepth).value.1);
    }
  }

  lemma {:induction false} ImageStep(obj: Node, ts: Toks, depth: nat, recDepth: nat)
    requires AllProper(ts) && Fine(obj, recDepth) && ts != []
    ensures FineResult(ParseStep(obj, ts, depth, recDepth), ts, recDepth)
    decreases |ts|, 1
  {
    hide ParseDotStep, ParseBracketStep, FineResult;
    if ts[0] == LBracket {
      ImageBracketStep(obj, ts, recDepth);
    } else {
      ImageDotStep(obj, ts, depth, recDepth);
    }
  }

  lemma ImageBracketStep(obj: Node, ts: Toks, recDepth: nat)
    requires AllProper(ts) && Fine(obj, recDepth) && ts != []
    ensures FineResult(ParseBracketStep(obj, ts), ts, recDepth)
  {
    hide Consumed, AllProper, Fine, Advance, Expect;
    if ParseBracketStep(obj, ts).None? {
      return;
    }
    AdvanceFine(ts);
    var t1 := Advance(ts).value;
    AdvanceFine(t1);
    var t2 := Advance(t1).value;
    ExpectFine(t2, RBracket);
    Then(ts, t1, t2);
    Then(ts, t2, Expect(t2, RBracket).value);
    FineAttr(obj, ParseBracketStep(obj, ts).value.0.attr, recDepth);
  }

  lemma {:induction false} ImageDotStep(obj: Node, ts: Toks, depth: nat, recDepth: nat)
    requires AllProper(ts) && Fine(obj, recDepth) && ts != []
    ensures FineResult(ParseDotStep(obj, ts, depth, recDepth), ts, recDepth)
    decreases |ts|, 0
  {
    hide Consumed, AllProper, Fine, Advance, ParseCall, Proper, Printer.IsPlainName, ExtName;
    if ParseDotStep(obj, ts, depth, recDepth).None? {
      return;
    }
    AdvanceFine(ts);
    var t1 := Advance(ts).value;
    HeadProper(t1);
    NamePlain(Head(t1));
    var name := IdentName(Head(t1)).value;
    AdvanceFine(t1);
    var t2 := Advance(t1).value;
    Then(ts, t1, t2);
    if Head(t2) == LParen {
      ImageCall(obj, name, t2, depth, recDepth);
      Then(ts, t2, ParseCall(obj, name, t2, depth, recDepth).value.1);
    } else {
      FineAttr(obj, name, recDepth);
    }
  }

  lemma {:induction false} ImageCall(obj: Node, name: string, ts: Toks, depth: nat, recDepth: nat)
    requires AllProper(ts) && Fine(obj, recDepth) && ts != [] && Printer.IsPlainName(name)
    ensures FineResult(ParseCall(obj, name, ts, depth, recDepth), ts, recDepth)
    decreases |ts|, 0
  {
    hide Consumed, AllProper, Fine, Advance, Expect, ParseExpr, Printer.IsPlainName;
    FineDepth(obj, recDepth);
    if ParseCall(obj, name, ts, depth, recDepth).None? {
      return;
    }
    AdvanceFine(ts);
    var t1 := Advance(ts).value;
    if Head(t1) == RParen {
      AdvanceFine(t1);
      Then(ts, t1, Advance(t1).value);
      FineCall(obj, name, None, recDepth);
    } else {
      ImageExpr(t1, depth, recDepth);
      var (arg, t2) := ParseExpr(t1, depth, recDepth).value;
      ExpectFine(t2, RParen);
      Then(ts, t1, t2);
      Then(ts, t2, Expect(t2, RParen).value);
      FineCall(obj, name, Some(arg), recDepth);
    }
  }

  lemma {:induction false} ImagePrimary(ts: Toks, depth: nat, recDepth: nat)
    requires AllProper(ts) && recDepth <= MAX_RECORD_DEPTH
    ensures FineResult(ParsePrimary(ts, depth, recDepth), ts, recDepth)
    decreases |ts|, 1
  {
    hide Consumed, AllProper, Fine, Advance, ParseParenthesized, ParseSet, ParseRecord, ParseExtension, ParseEntityRef, LongOf, TypeSoFar;
    if ParsePrimary(ts, depth, recDepth).None? {
      return;
    }
    var h := Head(ts);
    if h.KwExt? {
      ImageExtension(h.kind, ts, recDepth);
    } else if h == LParen {
      ImageParenthesized(ts, depth, recDepth);
    } else if h == LBracket {
      ImageSet(ts, depth, recDepth);
    } else if h == LBrace {
      ImageRecord(ts, depth, recDepth);
    } else if h.Ident? {
      HeadProper(ts);
      AdvanceFine(ts);
      TypeStart(h);
      ImageEntityRef(h.name, 1, Advance(ts).value, recDepth);
      Then(ts, Advance(ts).value, ParsePrimary(ts, depth, recDepth).value.1);
    } else {
      AdvanceFine(ts);
      if h.Number? {
        LongFits(h.digits);
      }
      FineLeaf(ParsePrimary(ts, depth, recDepth).value.0, recDepth);
    }
  }

  lemma LongFits(digits: DigitString)
    ensures LongOf(digits).Some? ==> InInt64(LongOf(digits).value)
  {
  }

  lemma ImageExtension(kind: ExtKind, ts: Toks, recDepth: nat)
    requires AllProper(ts) && recDepth <= MAX_RECORD_DEPTH && ts != []
    ensures FineResult(ParseExtension(kind, ts), ts, recDepth)
  {
    hide Consumed, AllProper, Fine, Advance, Expect;
    if ParseExtension(kind, ts).None? {
      return;
    }
    AdvanceFine(ts);
    var t1 := Advance(ts).value;
    ExpectFine(t1, LParen);
    var t2 := Expect(t1, LParen).value;
    AdvanceFine(t2);
    var t3 := Advance(t2).value;
    ExpectFine(t3, RParen);
    Then(ts, t1, t2);
    Then(ts, t2, t3);
    Then(ts, t3, Expect(t3, RParen).value);
    FineLeaf(ParseExtension(kind, ts).value.0, recDepth);
  }

  lemma {:induction false} ImageParenthesized(ts: Toks, depth: nat, recDepth: nat)
    requires AllProper(ts) && recDepth <= MAX_RECORD_DEPTH && ts != []
    ensures FineResult(ParseParenthesized(ts, depth, recDepth), ts, recDepth)
    decreases |ts|, 0
  {
    hide Consumed, AllProper, Fine, Advance, Expect, ParseExpr;
    if ParseParenthesized(ts, depth, recDepth).None? {
      return;
    }
    AdvanceFine(ts);
    var t1 := Advance(ts).value;
    ImageExpr(t1, depth, recDepth);
    var (e, t2) := ParseExpr(t1, depth, recDepth).value;
    ExpectFine(t2, RParen);
    Then(ts, t1, t2);
    Then(ts, t2, Expect(t2, RParen).value);
  }

  lemma {:induction false} ImageSet(ts: Toks, depth: nat, recDepth: nat)
    requires AllProper(ts) && recDepth <= MAX_RECORD_DEPTH && ts != []
    ensures FineResult(ParseSet(ts, depth, recDepth), ts, recDepth)
    decreases |ts|, 0
  {
    hide Consumed, AllProper, Fine, Advance, ParseExpr, SetClose;
    if ParseSet(ts, depth, recDepth).None? {
      return;
    }
    AdvanceFine(ts);
    var t1 := Advance(ts).value;
    if Head(t1) == RBracket {
      AdvanceFine(t1);
      Then(ts, t1, Advance(t1).value);
      FineSet([], recDepth);
    } else {
      ImageExpr(t1, depth, recDepth);
      var (first, t2) := ParseExpr(t1, depth, recDepth).value;
      ImageSetClose([first], t2, depth, recDepth);
      Then(ts, t1, t2);
      Then(ts, t2, SetClose([first], t2, depth, recDepth).value.1);
    }
  }

  lemma {:induction false} ImageSetClose(elts: seq<Node>, ts: Toks, depth: nat, recDepth: nat)
    requires AllProper(ts) && recDepth <= MAX_RECORD_DEPTH && FineElts(elts, recDepth)
    ensures FineResult(SetClose(elts, ts, depth, recDepth), ts, recDepth)
    decreases |ts|, 1
  {
    hide Consumed, AllProper, Fine, FineElts, Expect, SetRest;
    if SetClose(elts, ts, depth, recDepth).None? {
      return;
    }
    ImageSetRest(elts, ts, depth, recDepth);
    var (all, t1) := SetRest(elts, ts, depth, recDepth).value;
    ExpectFine(t1, RBracket);
    Then(ts, t1, Expect(t1, RBracket).value);
    FineSet(all, recDepth);
  }

  lemma {:induction false} ImageSetRest(elts: seq<Node>, ts: Toks, depth: nat, recDepth: nat)
    requires AllProper(ts) && recDepth <= MAX_RECORD_DEPTH && FineElts(elts, recDepth)
    ensures var r := SetRest(elts, ts, depth, recDepth);
      r.Some? ==> FineElts(r.value.0, recDepth) && Consumed(ts, r.value.1) && AllProper(r.value.1)
    decreases |ts|, 0
  {
    hide Consumed, AllProper, Fine, Advance, ParseExpr;
    Stay(ts);
    if Head(ts) != Comma || SetRest(elts, ts, depth, recDepth).None? {
      return;
    }
    AdvanceFine(ts);
    var t1 := Advance(ts).value;
    ImageExpr(t1, depth, recDepth);
    var (e, t2) := ParseExpr(t1, depth, recDepth).value;
    ImageSetRest(elts + [e], t2, depth, recDepth);
    Then(ts, t1, t2);
    Then(ts, t2, SetRest(elts, ts, depth, recDepth).value.1);
  }

  lemma {:induction false} ImageRecord(ts: Toks, depth: nat, recDepth: nat)
    requires AllProper(ts) && recDepth <= MAX_RECORD_DEPTH && ts != []
    ensures FineResult(ParseRecord(ts, depth, recDepth), ts, recDepth)
    decreases |ts|, 0
  {
    hide Consumed, AllProper, Fine, FineEntries, Advance, Expect, RecordClose;
    if ParseRecord(ts, depth, recDepth).None? {
      return;
    }
    NoEntries(recDepth + 1);
    AdvanceFine(ts);
    var t1 := Advance(ts).value;
    if Head(t1) == RBrace {
      AdvanceFine(t1);
      Then(ts, t1, Advance(t1).value);
      FineRecord([], recDepth);
    } else {
      ImageRecordClose([], t1, depth, recDepth + 1);
      Then(ts, t1, RecordClose([], t1, depth, recDepth + 1).value.1);
    }
  }

  lemma NoEntries(recDepth: nat)
    ensures FineEntries([], recDepth)
  {
  }

  lemma {:induction false} ImageRecordClose(entries: seq<Entry>, ts: Toks, depth: nat, recDepth: nat)
    requires AllProper(ts) && 0 < recDepth <= MAX_RECORD_DEPTH && FineEntries(entries, recDepth)
    ensures FineResult(RecordClose(entries, ts, depth, recDepth), ts, recDepth - 1)
    decreases |ts|, 2
  {
    hide Consumed, AllProper, Fine, FineEntries, Expect, ParseEntries;
    if RecordClose(entries, ts, depth, recDepth).None? {
      return;
    }
    ImageEntries(entries, ts, depth, recDepth);
    var (all, t1) := ParseEntries(entries, ts, depth, recDepth).value;
    ExpectFine(t1, RBrace);
    Then(ts, t1, Expect(t1, RBrace).value);
    FineRecord(all, recDepth - 1);
  }

  lemma {:induction false} ImageEntries(entries: seq<Entry>, ts: Toks, depth: nat, recDepth: nat)
    requires AllProper(ts) && recDepth <= MAX_RECORD_DEPTH && FineEntries(entries, recDepth)
    ensures var r := ParseEntries(entries, ts, depth, recDepth);
      r.Some? ==> FineEntries(r.value.0, recDepth) && Consumed(ts, r.value.1) && AllProper(r.value.1)
    decreases |ts|, 1
  {
    hide Consumed, AllProper, Fine, FineEntries, Advance, ParseEntry;
    if ParseEntries(entries, ts, depth, recDepth).None? {
      return;
    }
    ImageEntry(entries, ts, depth, recDepth);
    var (entry, t1) := ParseEntry(entries, ts, depth, recDepth).value;
    if Head(t1) == Comma {
      AdvanceFine(t1);
      var t2 := Advance(t1).value;
      Then(ts, t1, t2);
      if Head(t2) != RBrace {
        ImageEntries(entries + [entry], t2, depth, recDepth);
        Then(ts, t2, ParseEntries(entries, ts, depth, recDepth).value.1);
      }
    }
  }

  lemma {:induction false} ImageEntry(entries: seq<Entry>, ts: Toks, depth: nat, recDepth: nat)
    requires AllProper(ts) && recDepth <= MAX_RECORD_DEPTH && FineEntries(entries, recDepth)
    ensures var r := ParseEntry(entries, ts, depth, recDepth);
      r.Some? ==> FineEntries(entries + [r.value.0], recDepth) && Consumed(ts, r.value.1) && AllProper(r.value.1)
    decreases |ts|, 0
  {
    hide Consumed, AllProper, Fine, Advance, Expect, ParseExpr, IdentName, PlainString;
    if ParseEntry(entries, ts, depth, recDepth).None? {
      return;
    }
    AdvanceFine(ts);
    var t1 := Advance(ts).value;
    ExpectFine(t1, Colon);
    var t2 := Expect(t1, Colon).value;
    ImageExpr(t2, depth, recDepth);
    var (e, t3) := ParseExpr(t2, depth, recDepth).value;
    Then(ts, t1, t2);
    Then(ts, t2, t3);
    assert forall i :: 0 <= i < |entries| ==> entries[i].key != ParseEntry(entries, ts, depth, recDepth).value.0.key;
  }
}
