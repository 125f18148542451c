/** Runtime values (nxe_cedar_value_t). */
module Values {
  import opened Common
  import opened IpText

  /** Which request entity a value still is, syntactically. */
  datatype Slot = NoSlot | PrincipalSlot | ActionSlot | ResourceSlot

  datatype Value =
    | StrV(s: string)
    | LongV(n: int)
    | BoolV(b: bool)
    | EntityV(ty: string, id: string, slot: Slot)
    | SetV(elts: seq<Value>)
    | ErrorV
    | IpV(ip: Ip)
    | RecordV(attrs: seq<Attr>)
    | DecimalV(scaled: int)
    | DatetimeV(ms: int)
    | DurationV(length: int)

  datatype Attr = Attr(name: string, value: Value)

  predicate UniqueNames(attrs: seq<Attr>) {
    forall i, j :: 0 <= i < j < |attrs| ==> attrs[i].name != attrs[j].name
  }

  /** Every record in v has unique names: what the parser and the injection functions establish. */
  predicate UniqueKeys(v: Value) {
    match v
    case SetV(elts) => forall i :: 0 <= i < |elts| ==> UniqueKeys(elts[i])
    case RecordV(attrs) => UniqueNames(attrs) && forall i :: 0 <= i < |attrs| ==> UniqueKeys(attrs[i].value)
    case _ => true
  }

  /** No error value at any depth. */
  predicate ErrorFree(v: Value) {
    match v
    case ErrorV => false
    case SetV(elts) => forall i :: 0 <= i < |elts| ==> ErrorFree(elts[i])
    case RecordV(attrs) => forall i :: 0 <= i < |attrs| ==> ErrorFree(attrs[i].value)
    case _ => true
  }

  /** No container in v has more than `max` members. */
  predicate AtMost(v: Value, max: nat) {
    match v
    case SetV(elts) => |elts| <= max && forall i :: 0 <= i < |elts| ==> AtMost(elts[i], max)
    case RecordV(attrs) => |attrs| <= max && forall i :: 0 <= i < |attrs| ==> AtMost(attrs[i].value, max)
    case _ => true
  }

  /** Containers nest at most h deep in v. */
  predicate HeightAtMost(v: Value, h: nat) {
    match v
    case SetV(elts) => h > 0 && forall i :: 0 <= i < |elts| ==> HeightAtMost(elts[i], h - 1)
    case RecordV(attrs) => h > 0 && forall i :: 0 <= i < |attrs| ==> HeightAtMost(attrs[i].value, h - 1)
    case _ => true
  }

  /** The attribute of that name (nxe_cedar_find_attr). */
  function FindAttr(attrs: seq<Attr>, name: string): (r: Option<Value>)
    ensures r.None? <==> forall i :: 0 <= i < |attrs| ==> attrs[i].name != name
    ensures r.Some? ==> exists i :: 0 <= i < |attrs| && attrs[i] == Attr(name, r.value)
  {
    if attrs == [] then None
    else if attrs[0].name == name then
      assert attrs[0] == Attr(name, attrs[0].value);
      Some(attrs[0].value)
    else
      var r := FindAttr(attrs[1..], name);
      assert forall i :: 0 < i < |attrs| ==> attrs[i] == attrs[1..][i - 1];
      r
  }
}
