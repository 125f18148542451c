/**
 * The lexical grammar (src/nxe_cedar_lexer.c): string literals, names and keywords. The tokenizer itself
 * is in Scanner.
 */
module Lexer {
  import opened Common
  import opened Digits
  import opened Escapes
  import opened Syntax

  // ---- String literals ----

  /** The index of the closing quote of a literal whose body starts at p, or |s| if there is none. */
  function CloseQuote(s: string, p: nat): (e: nat)
    requires p <= |s|
    ensures p <= e <= |s| && (e < |s| ==> s[e] == '"')
    decreases |s| - p
  {
    if p == |s| then p
    else if s[p] == '\\' then (if p + 1 >= |s| then |s| else CloseQuote(s, p + 2))
    else if s[p] == '"' then p
    else CloseQuote(s, p + 1)
  }

  /** One decoding step of a literal body: the text it yields, the next index, and whether it was `\*`. */
  function BodyStep(raw: string, p: nat): (r: Option<(string, nat, bool)>)
    requires p < |raw|
    ensures r.Some? ==> p < r.value.1 <= |raw| && 1 <= |r.value.0| <= r.value.1 - p
  {
    if raw[p] == '\\' && p + 1 < |raw| then
      if raw[p + 1] == '*' then Some(("*", p + 2, true))
      else
        var (bytes, q) :- DecodeEscape(raw, p + 1, false);
        Some((bytes, q, false))
    else Some(([raw[p]], p + 1, false))
  }

  /** The value of a literal body from p on, and whether `\*` occurs in it. */
  function Unquote(raw: string, p: nat): (r: Option<(string, bool)>)
    requires p <= |raw|
    ensures r.Some? ==> |r.value.0| <= |raw| - p
    decreases |raw| - p
  {
    if p == |raw| then Some(("", false))
    else
      var (bytes, q, star) :- BodyStep(raw, p);
      var (value, stars) :- Unquote(raw, q);
      Some((bytes + value, star || stars))
  }

  function QuoteByte(c: char): string {
    if c == '"' then "\\\"" else if c == '\\' then "\\\\" else [c]
  }

  /** The literal body that escapes only quotes and backslashes. */
  function Quote(s: string): string {
    if s == "" then "" else QuoteByte(s[0]) + Quote(s[1..])
  }

  // ---- Names ----

  predicate IsNameStart(c: char) { 'a' <= c <= 'z' || 'A' <= c <= 'Z' || c == '_' }

  predicate IsNameChar(c: char) { IsNameStart(c) || IsDigit(c) }

  /** The keyword table. */
  function Keyword(name: string): Option<Token> {
    if name == "permit" then Some(KwPermit)
    else if name == "forbid" then Some(KwForbid)
    else if name == "when" then Some(KwWhen)
    else if name == "unless" then Some(KwUnless)
    else if name == "principal" then Some(KwVar(Principal))
    else if name == "action" then Some(KwVar(Action))
    else if name == "resource" then Some(KwVar(Resource))
    else if name == "context" then Some(KwVar(Context))
    else if name == "true" then Some(KwTrue)
    else if name == "false" then Some(KwFalse)
    else if name == "in" then Some(Oper(In))
    else if name == "if" then Some(KwIf)
    else if name == "then" then Some(KwThen)
    else if name == "else" then Some(KwElse)
    else if name == "has" then Some(KwHas)
    else if name == "like" then Some(KwLike)
    else if name == "ip" then Some(KwExt(IpKind))
    else if name == "decimal" then Some(KwExt(DecimalKind))
    else if name == "is" then Some(KwIs)
    else if name == "datetime" then Some(KwExt(DatetimeKind))
    else if name == "duration" then Some(KwExt(DurationKind))
    else None
  }

  predicate IsName(name: string) {
    name != "" && IsNameStart(name[0]) && forall i :: 0 <= i < |name| ==> IsNameChar(name[i])
  }

  /** The token of a name. */
  function NameToken(name: string): Token {
    match Keyword(name)
    case Some(t) => t
    case None => Ident(name)
  }
}
