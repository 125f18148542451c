/**
 * What evaluating an expression means (nxe_cedar_expr_eval and its helpers), as a function. One
 * function serves both the source's bounded evaluator and the evaluator without a bound.
 */
module Semantics {
  import opened Common
  import opened IpText
  import opened Syntax
  import opened Values
  import Cidr
  import Datetime
  import Decimal
  import Duration
  import Equality
  import Ipv6
  import Pattern

  // ---- The request ----

  datatype Ref = Ref(ty: string, id: string)

  /** The principal, action or resource of a request. */
  datatype Party = Party(ty: string, id: string, attrs: seq<Attr>, parents: seq<Ref>)

  datatype Env = Env(principal: Party, action: Party, resource: Party, context: seq<Attr>)

  function SlotOf(v: Var): Slot {
    match v
    case Principal => PrincipalSlot
    case Action => ActionSlot
    case Resource => ResourceSlot
    case Context => NoSlot
  }

  /** The party a slot stands for (nxe_cedar_resolve_slot_attrs, nxe_cedar_eval_ctx_lookup_parents). */
  function PartyAt(slot: Slot, env: Env): Option<Party> {
    match slot
    case NoSlot => None
    case PrincipalSlot => Some(env.principal)
    case ActionSlot => Some(env.action)
    case ResourceSlot => Some(env.resource)
  }

  predicate Names(p: Party, ty: string, id: string) {
    ty == p.ty && id == p.id
  }

  /** nxe_cedar_entity_request_slot: the first slot with that identity. */
  function RequestSlot(env: Env, ty: string, id: string): Slot {
    if Names(env.principal, ty, id) then PrincipalSlot
    else if Names(env.action, ty, id) then ActionSlot
    else if Names(env.resource, ty, id) then ResourceSlot
    else NoSlot
  }

  function VarValue(v: Var, env: Env): Value {
    match PartyAt(SlotOf(v), env)
    case None => RecordV(env.context)
    case Some(p) => EntityV(p.ty, p.id, SlotOf(v))
  }

  /** nxe_cedar_resolve_var_attrs. */
  function VarAttrs(v: Var, env: Env): seq<Attr> {
    match v
    case Principal => env.principal.attrs
    case Action => env.action.attrs
    case Resource => env.resource.attrs
    case Context => env.context
  }

  function Lookup(attrs: seq<Attr>, name: string): Value {
    match FindAttr(attrs, name)
    case None => ErrorV
    case Some(v) => v
  }

  // ---- Attributes ----

  /** The attributes that a value has: those of its slot, or of the record it is. */
  function AttrsOf(v: Value, env: Env): Option<seq<Attr>> {
    match v
    case EntityV(_, _, slot) =>
      var p :- PartyAt(slot, env);
      Some(p.attrs)
    case RecordV(attrs) => Some(attrs)
    case _ => None
  }

  function AttrOf(v: Value, name: string, env: Env): Value {
    match AttrsOf(v, env)
    case None => ErrorV
    case Some(attrs) => Lookup(attrs, name)
  }

  function HasOf(v: Value, name: string, env: Env): Value {
    match AttrsOf(v, env)
    case None => ErrorV
    case Some(attrs) => BoolV(FindAttr(attrs, name).Some?)
  }

  // ---- Membership ----

  /** nxe_cedar_entity_in_target. */
  predicate InTarget(ty: string, id: string, parents: seq<Ref>, target: Ref) {
    Ref(ty, id) == target || target in parents
  }

  function Parents(slot: Slot, env: Env): seq<Ref> {
    match PartyAt(slot, env)
    case None => []
    case Some(p) => p.parents
  }

  predicate AllEntities(elts: seq<Value>) {
    forall i :: 0 <= i < |elts| ==> elts[i].EntityV?
  }

  /** Some element of an all-entity set is the entity or one of its ancestors. */
  predicate InSome(ty: string, id: string, parents: seq<Ref>, elts: seq<Value>)
    requires AllEntities(elts)
  {
    exists i :: 0 <= i < |elts| && InTarget(ty, id, parents, Ref(elts[i].ty, elts[i].id))
  }

  /** nxe_cedar_eval_in: a set on the right must hold entities only. */
  function InOf(left: Value, right: Value, env: Env): Value {
    if !left.EntityV? then ErrorV
    else
      var parents := Parents(left.slot, env);
      match right
      case EntityV(ty, id, _) => BoolV(InTarget(left.ty, left.id, parents, Ref(ty, id)))
      case SetV(elts) => if AllEntities(elts) then BoolV(InSome(left.ty, left.id, parents, elts)) else ErrorV
      case _ => ErrorV
  }

  // ---- Operators ----

  function Negated(v: Value): Value {
    if v.BoolV? then BoolV(!v.b) else v
  }

  function FromTri(t: Equality.Tri): Value {
    match t
    case Fail => ErrorV
    case Yes => BoolV(true)
    case No => BoolV(false)
  }

  function EqOf(a: Value, b: Value): Value {
    FromTri(Equality.Equal(a, b, 0))
  }

  /** The number that orders a Long, datetime or duration. */
  function OrderKey(v: Value): Option<int> {
    match v
    case LongV(n) => Some(n)
    case DatetimeV(ms) => Some(ms)
    case DurationV(ms) => Some(ms)
    case _ => None
  }

  predicate SameOrdered(a: Value, b: Value) {
    (a.LongV? && b.LongV?) || (a.DatetimeV? && b.DatetimeV?) || (a.DurationV? && b.DurationV?)
  }

  function CompareOf(op: Op, a: Value, b: Value): Value {
    if !SameOrdered(a, b) then ErrorV
    else
      var x: int, y: int := OrderKey(a).value, OrderKey(b).value;
      match op
      case Lt => BoolV(x < y)
      case Gt => BoolV(x > y)
      case Le => BoolV(x <= y)
      case Ge => BoolV(x >= y)
      case _ => ErrorV
  }

  function Checked(n: int): Value {
    if InInt64(n) then LongV(n) else ErrorV
  }

  /** nxe_cedar_long_arith. */
  function ArithOf(op: Op, a: Value, b: Value): Value {
    if !a.LongV? || !b.LongV? then ErrorV
    else
      match op
      case Plus => Checked(a.n + b.n)
      case Minus => Checked(a.n - b.n)
      case Mul => Checked(a.n * b.n)
      case _ => ErrorV
  }

  /** The operators that evaluate both operands. */
  function StrictOf(op: Op, a: Value, b: Value, env: Env): Value {
    if a.ErrorV? || b.ErrorV? then ErrorV
    else if op == Eq then EqOf(a, b)
    else if op == Ne then Negated(EqOf(a, b))
    else if op == In then InOf(a, b, env)
    else if op == Lt || op == Gt || op == Le || op == Ge then CompareOf(op, a, b)
    else ArithOf(op, a, b)
  }

  /** `&&` and `||`: the left operand decides, or the right one does. */
  function LogicOf(op: Op, a: Value, b: Value): Value {
    if !a.BoolV? then ErrorV
    else if a.b == (op == Or) then a
    else if b.BoolV? then b
    else ErrorV
  }

  function NotOf(v: Value): Value {
    if v.BoolV? then BoolV(!v.b) else ErrorV
  }

  function NegOf(v: Value): Value {
    if v.LongV? && v.n != INT64_MIN then LongV(-v.n) else ErrorV
  }

  ghost function LikeOf(v: Value, pattern: string): Value {
    if v.StrV? then BoolV(Pattern.Matches(Pattern.Meaning(pattern), v.s)) else ErrorV
  }

  /** nxe_cedar_clear_entity_slot. */
  function Untag(v: Value): Value {
    if v.EntityV? then EntityV(v.ty, v.id, NoSlot) else v
  }

  function IfOf(c: Value, a: Value, b: Value): Value {
    if !c.BoolV? then ErrorV else Untag(if c.b then a else b)
  }

  /** `is T`, and `is T in e` whose right-hand side only matters when the type fits. */
  function IsOf(v: Value, ty: string, right: Option<Value>, env: Env): Value {
    if !v.EntityV? then ErrorV
    else if v.ty != ty then BoolV(false)
    else if right.None? then BoolV(true)
    else if right.value.ErrorV? then ErrorV
    else InOf(v, right.value, env)
  }

  // ---- Methods ----

  const LOOPBACK_V4: Ip := Block([127] + Zeros(15), 8, false)
  const LOOPBACK_V6: Ip := Block(Zeros(15) + [1], 128, true)
  const MULTICAST_V4: Ip := Block([224] + Zeros(15), 4, false)
  const MULTICAST_V6: Ip := Block([255] + Zeros(15), 8, true)

  /** A method without an argument. */
  function Call0Of(callee: string, v: Value): Value {
    if v.ErrorV? then ErrorV
    else if callee == "isEmpty" then
      if v.SetV? then BoolV(v.elts == []) else ErrorV
    else
      match v
      case DatetimeV(ms) =>
        if callee == "toDate" then DatetimeV(Datetime.ToDate(ms))
        else if callee == "toTime" then DurationV(Datetime.ToTime(ms))
        else ErrorV
      case DurationV(d) =>
        if callee == "toMilliseconds" then LongV(d)
        else if callee == "toSeconds" then LongV(TruncDiv(d, 1000))
        else if callee == "toMinutes" then LongV(TruncDiv(d, 60000))
        else if callee == "toHours" then LongV(TruncDiv(d, 3600000))
        else if callee == "toDays" then LongV(TruncDiv(d, 86400000))
        else ErrorV
      case IpV(ip) =>
        if callee == "isIpv4" then BoolV(!ip.v6)
        else if callee == "isIpv6" then BoolV(ip.v6)
        else if callee == "isLoopback" then BoolV(Cidr.Contains(ip, if ip.v6 then LOOPBACK_V6 else LOOPBACK_V4))
        else if callee == "isMulticast" then BoolV(Cidr.Contains(ip, if ip.v6 then MULTICAST_V6 else MULTICAST_V4))
        else ErrorV
      case _ => ErrorV
  }

  /** Whether x equals some element; a comparison that fails before one is found makes it fail. */
  function Among(x: Value, elts: seq<Value>): Equality.Tri {
    if elts == [] then Equality.No
    else
      match Equality.Equal(x, elts[0], 0)
      case Fail => Equality.Fail
      case Yes => Equality.Yes
      case No => Among(x, elts[1..])
  }

  /** The `contains` loop, which compares the other way round. */
  function Contains(elts: seq<Value>, x: Value): Equality.Tri {
    if elts == [] then Equality.No
    else
      match Equality.Equal(elts[0], x, 0)
      case Fail => Equality.Fail
      case Yes => Equality.Yes
      case No => Contains(elts[1..], x)
  }

  function ContainsAll(elts: seq<Value>, xs: seq<Value>): Equality.Tri {
    if xs == [] then Equality.Yes
    else
      match Among(xs[0], elts)
      case Fail => Equality.Fail
      case No => Equality.No
      case Yes => ContainsAll(elts, xs[1..])
  }

  function ContainsAny(elts: seq<Value>, xs: seq<Value>): Equality.Tri {
    if xs == [] then Equality.No
    else
      match Among(xs[0], elts)
      case Fail => Equality.Fail
      case Yes => Equality.Yes
      case No => ContainsAny(elts, xs[1..])
  }

  function DatetimeCall(callee: string, ms: int, arg: Value): Value {
    if callee == "offset" then
      if arg.DurationV? && InInt64(ms + arg.length) then DatetimeV(ms + arg.length) else ErrorV
    else if callee == "durationSince" then
      if arg.DatetimeV? && InInt64(ms - arg.ms) then DurationV(ms - arg.ms) else ErrorV
    else ErrorV
  }

  function DecimalCall(callee: string, a: Value, b: Value): Value {
    if !a.DecimalV? || !b.DecimalV? then ErrorV
    else if callee == "lessThan" then BoolV(a.scaled < b.scaled)
    else if callee == "lessThanOrEqual" then BoolV(a.scaled <= b.scaled)
    else if callee == "greaterThan" then BoolV(a.scaled > b.scaled)
    else if callee == "greaterThanOrEqual" then BoolV(a.scaled >= b.scaled)
    else ErrorV
  }

  /** A method with one argument. */
  function Call1Of(callee: string, v: Value, arg: Value): Value {
    if v.ErrorV? || arg.ErrorV? then ErrorV
    else if callee == "containsAll" then
      if v.SetV? && arg.SetV? then FromTri(ContainsAll(v.elts, arg.elts)) else ErrorV
    else if callee == "containsAny" then
      if v.SetV? && arg.SetV? then FromTri(ContainsAny(v.elts, arg.elts)) else ErrorV
    else if callee == "contains" then
      if v.SetV? then FromTri(Contains(v.elts, arg)) else ErrorV
    else if callee == "isInRange" then
      if v.IpV? && arg.IpV? then BoolV(Cidr.Contains(v.ip, arg.ip)) else ErrorV
    else if v.DatetimeV? then DatetimeCall(callee, v.ms, arg)
    else DecimalCall(callee, v, arg)
  }

  // ---- Extension literals ----

  function ExtOf(kind: ExtKind, text: string): Value {
    match kind
    case IpKind => (match Ipv6.IpOf(text) case None => ErrorV case Some(ip) => IpV(ip))
    case DecimalKind => (match Decimal.DecimalOf(text) case None => ErrorV case Some(n) => DecimalV(n))
    case DatetimeKind => (match Datetime.DatetimeOf(text) case None => ErrorV case Some(ms) => DatetimeV(ms))
    case DurationKind => (match Duration.DurationOf(text) case None => ErrorV case Some(ms) => DurationV(ms))
  }

  // ---- Evaluation ----

  const MAX_EVAL_DEPTH: nat := 128

  /** How many more nested evaluations are allowed. */
  datatype Budget = Unlimited | Left(frames: nat)

  function Spend(b: Budget): Budget
    requires b != Left(0)
  {
    if b.Left? then Left(b.frames - 1) else b
  }

  ghost function Eval(n: Node, env: Env, b: Budget): Value
    decreases n, 1
  {
    if b == Left(0) then ErrorV else EvalBody(n, env, Spend(b))
  }

  ghost function EvalBody(n: Node, env: Env, b: Budget): Value
    decreases n, 0
  {
    match n
    case BoolLit(x) => BoolV(x)
    case StrLit(s) => StrV(s)
    case LongLit(i) => LongV(i)
    case ExtLit(kind, text) => ExtOf(kind, text)
    case EntityRef(ty, id) => EntityV(ty, id, RequestSlot(env, ty, id))
    case VarRef(v) => VarValue(v, env)
    case GetAttr(obj, name) =>
      if obj.VarRef? then Lookup(VarAttrs(obj.v, env), name) else AttrOf(Eval(obj, env, b), name, env)
    case Has(obj, name) =>
      if obj.VarRef? then BoolV(FindAttr(VarAttrs(obj.v, env), name).Some?) else HasOf(Eval(obj, env, b), name, env)
    case SetLit(elts) => (match EvalAll(elts, env, b) case None => ErrorV case Some(vs) => SetV(vs))
    case RecordLit(entries) => (match EvalEntries(entries, env, b) case None => ErrorV case Some(attrs) => RecordV(attrs))
    case Bin(op, l, r) =>
      if op == And || op == Or then LogicOf(op, Eval(l, env, b), Eval(r, env, b))
      else StrictOf(op, Eval(l, env, b), Eval(r, env, b), env)
    case Not(e) => NotOf(Eval(e, env, b))
    case Neg(e) => NegOf(Eval(e, env, b))
    case Like(obj, pattern) => LikeOf(Eval(obj, env, b), pattern)
    case Call(obj, callee, arg) =>
      if arg.None? then Call0Of(callee, Eval(obj, env, b))
      else Call1Of(callee, Eval(obj, env, b), Eval(arg.value, env, b))
    case Is(obj, ty, e) =>
      IsOf(Eval(obj, env, b), ty, if e.None? then None else Some(Eval(e.value, env, b)), env)
    case If(c, x, y) => IfOf(Eval(c, env, b), Eval(x, env, b), Eval(y, env, b))
  }

  /** The untagged values of the elements, unless one of them errs. */
  ghost function EvalAll(elts: seq<Node>, env: Env, b: Budget): Option<seq<Value>>
    decreases elts, 2
  {
    if elts == [] then Some([])
    else
      var v := Eval(elts[0], env, b);
      if v.ErrorV? then None
      else
        var vs :- EvalAll(elts[1..], env, b);
        Some([Untag(v)] + vs)
  }

  ghost function EvalEntries(entries: seq<Entry>, env: Env, b: Budget): Option<seq<Attr>>
    decreases entries, 2
  {
    if entries == [] then Some([])
    else
      var v := Eval(entries[0].value, env, b);
      if v.ErrorV? then None
      else
        var attrs :- EvalEntries(entries[1..], env, b);
        Some([Attr(entries[0].key, Untag(v))] + attrs)
  }

  // ---- What operators and literals build ----

  /** Neither a container nor an entity. */
  predicate Simple(v: Value) {
    !v.SetV? && !v.RecordV? && !v.EntityV?
  }

  /** The expressions whose value does not come from the request, from a container or from a branch. */
  predicate IsOperator(n: Node) {
    n.Bin? || n.Not? || n.Neg? || n.Has? || n.Like? || n.Call? || n.Is? || n.ExtLit?
  }

  lemma LogicSimple(op: Op, a: Value, b: Value)
    ensures Simple(LogicOf(op, a, b))
  {
  }

  lemma StrictSimple(op: Op, a: Value, b: Value, env: Env)
    ensures Simple(StrictOf(op, a, b, env))
  {
    hide InOf, CompareOf, ArithOf, Equality.Equal;
    InSimple(a, b, env);
    CompareSimple(op, a, b);
    ArithSimple(op, a, b);
  }

  lemma InSimple(a: Value, b: Value, env: Env)
    ensures Simple(InOf(a, b, env))
  {
    hide InSome, InTarget, Parents, AllEntities;
  }

  lemma CompareSimple(op: Op, a: Value, b: Value)
    ensures Simple(CompareOf(op, a, b))
  {
  }

  lemma ArithSimple(op: Op, a: Value, b: Value)
    ensures Simple(ArithOf(op, a, b))
  {
  }

  lemma UnarySimple(a: Value, name: string, env: Env)
    ensures Simple(HasOf(a, name, env)) && Simple(NotOf(a)) && Simple(NegOf(a)) && Simple(LikeOf(a, name))
  {
    hide AttrsOf, FindAttr;
  }

  lemma CallSimple(callee: string, a: Value, b: Value)
    ensures Simple(Call0Of(callee, a)) && Simple(Call1Of(callee, a, b))
  {
    hide ContainsAll, ContainsAny, Contains;
  }

  lemma IsSimple(a: Value, ty: string, r: Option<Value>, env: Env)
    ensures Simple(IsOf(a, ty, r, env))
  {
    hide InOf;
    if r.Some? {
      InSimple(a, r.value, env);
    }
  }

  lemma ExtSimple(kind: ExtKind, text: string)
    ensures Simple(ExtOf(kind, text))
  {
  }

  lemma OperatorSimple(n: Node, env: Env, b: Budget)
    requires IsOperator(n)
    ensures Simple(EvalBody(n, env, b))
  {
    hide Eval, LogicOf, StrictOf, NotOf, NegOf, LikeOf, HasOf, Call0Of, Call1Of, IsOf, ExtOf, FindAttr, VarAttrs;
    match n {
      case Bin(op, l, r) =>
        LogicSimple(op, Eval(l, env, b), Eval(r, env, b));
        StrictSimple(op, Eval(l, env, b), Eval(r, env, b), env);
      case Not(e) => UnarySimple(Eval(e, env, b), "", env);
      case Neg(e) => UnarySimple(Eval(e, env, b), "", env);
      case Has(obj, name) => UnarySimple(Eval(obj, env, b), name, env);
      case Like(obj, pattern) => UnarySimple(Eval(obj, env, b), pattern, env);
      case Call(obj, callee, arg) =>
        CallSimple(callee, Eval(obj, env, b), if arg.Some? then Eval(arg.value, env, b) else ErrorV);
      case Is(obj, ty, e) =>
        IsSimple(Eval(obj, env, b), ty, if e.Some? then Some(Eval(e.value, env, b)) else None, env);
      case ExtLit(kind, text) => ExtSimple(kind, text);
    }
  }
}
