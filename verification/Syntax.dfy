/** Tokens and abstract syntax, after src/nxe_cedar_types.h. */
module Syntax {
  import opened Common
  import opened Digits

  datatype Var = Principal | Action | Resource | Context

  /** The four extension constructors, which are keywords and may still be attribute names. */
  datatype ExtKind = IpKind | DecimalKind | DatetimeKind | DurationKind

  function ExtName(k: ExtKind): string {
    match k
    case IpKind => "ip"
    case DecimalKind => "decimal"
    case DatetimeKind => "datetime"
    case DurationKind => "duration"
  }

  datatype Op = Eq | Ne | And | Or | In | Lt | Gt | Le | Ge | Plus | Minus | Mul

  datatype Token =
    | KwPermit | KwForbid | KwWhen | KwUnless | KwVar(v: Var) | KwTrue | KwFalse
    | KwIf | KwThen | KwElse | KwHas | KwLike | KwIs | KwExt(kind: ExtKind)
    | Oper(op: Op)      // == != && || in < > <= >= + - *
    | Bang
    | Dot | Comma | Semicolon | LParen | RParen | LBrace | RBrace | LBracket | RBracket
    | ColonColon | Colon | At
    | Str(value: string, raw: string, starEscape: bool)
    | Number(digits: DigitString)
    | Ident(name: string)
    | Eof
    | ErrorToken

  datatype Node =
    | BoolLit(b: bool)
    | StrLit(s: string)
    | LongLit(n: int)
    | EntityRef(ty: string, id: string)
    | SetLit(elts: seq<Node>)
    | VarRef(v: Var)
    | GetAttr(obj: Node, attr: string)
    | Bin(op: Op, left: Node, right: Node)
    | Not(operand: Node)
    | Neg(operand: Node)
    | Has(obj: Node, attr: string)
    | Like(obj: Node, pattern: string)
    | If(cond: Node, thn: Node, els: Node)
    | Call(obj: Node, callee: string, arg: Option<Node>)
    | ExtLit(kind: ExtKind, text: string)
    | Is(obj: Node, ty: string, inEntity: Option<Node>)
    | RecordLit(entries: seq<Entry>)

  datatype Entry = Entry(key: string, value: Node)

  // ---- Policies ----

  datatype Scope = AnyEntity | EqTo(target: Node) | InTo(target: Node) | IsType(ty: string) | IsTypeIn(ty: string, target: Node)

  datatype Condition = Condition(isUnless: bool, expr: Node)

  datatype Annotation = Annotation(key: string, value: string)

  datatype Policy = Policy(isForbid: bool, annotations: seq<Annotation>,
                           principal: Scope, action: Scope, resource: Scope, conditions: seq<Condition>)
}
