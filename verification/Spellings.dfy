/**
 * Spellings that printing never writes: a comma behind the last entry of a record, quotes around names
 * that need none, and annotations with an empty value. They are read like the printed ones, within the
 * same limits.
 */
module Spellings {
  import opened Common
  import opened Syntax
  import opened Grammar
  import opened PolicyGrammar
  import opened Printer
  import opened Phrases
  import opened PhraseReading
  import opened RoundTrip
  import opened Statements
  import Lexer

  /** t spells the name, bare or as a string. */
  predicate Names(t: Token, name: string) {
    (IsBare(t) || IsPlain(t)) && NameOf(t) == name
  }

  lemma Spelled(t: Token, name: string)
    ensures Names(t, name) <==> (IsBare(t) || IsPlain(t)) && NameOf(t) == name
    ensures Names(t, name) ==> !t.ErrorToken? && t != RBrace && t != RParen && t != KwIf && t != Eof
  {
  }

  // ---- Expressions that a level reads up to what stops them ----

  /** What a level reads as n, within the limits of n, is read like n printed. */
  lemma LikePrinted(l: nat, ts: Toks, n: Node, k: Toks, depth: nat, recDepth: nat)
    requires WellFormed(n) && OR <= l <= MEMBER && Stops(Head(k), EXPR) && Head(ts) != KwIf
    requires l == MEMBER ==> Head(ts) != Bang && Head(ts) != Oper(Minus)
    requires ParseAt(l, ts, depth + 1, recDepth) == if FitsRaw(n, depth + 1, recDepth) then Some((n, k)) else None
    ensures ParseExpr(ts, depth, recDepth) == ParseExpr(Print(n, EXPR, k), depth, recDepth)
  {
    hide *;
    ExprIsChain(ts, depth, recDepth);
    LevelsAre();
    StopsTighter(Head(k), EXPR, OR);
    LiftTo(OR, l, ts, depth + 1, recDepth);
    FitsFacts(n, depth, recDepth);
    ParsePrint(n, k, depth, recDepth);
  }

  lemma LevelsAre()
    ensures EXPR == 0 && OR == 1 && REL == 3 && ADD == 4 && MEMBER == 7
  {
  }

  /** What a node of a level tighter than the loosest needs. */
  lemma FitsFacts(n: Node, depth: nat, recDepth: nat)
    ensures Fits(n, EXPR, depth, recDepth) <==> depth + 1 <= MAX_PARSE_DEPTH && FitsRaw(n, depth + 1, recDepth)
  {
    hide FitsRaw;
  }

  // ---- Names ----

  /** After `has`, a name can be written bare or as a string. */
  lemma HasSpelled(obj: Node, t: Token, name: string, k: Toks, depth: nat, recDepth: nat)
    requires WellFormed(obj) && Names(t, name) && Stops(Head(k), EXPR)
    ensures ParseExpr(Print(obj, ADD, [KwHas] + ([t] + k)), depth, recDepth)
      == ParseExpr(Print(Has(obj, name), EXPR, k), depth, recDepth)
  {
    hide *;
    var k1 := [KwHas] + ([t] + k);
    LevelsAre();
    StopsTighter(Head(k), EXPR, REL);
    HasShape(obj, name, k, depth + 1, recDepth);
    ReadHas(obj, t, name, k, depth + 1, recDepth);
    PrintBegins(obj, ADD, k1);
    LikePrinted(REL, Print(obj, ADD, k1), Has(obj, name), k, depth, recDepth);
  }

  lemma ReadHas(obj: Node, t: Token, name: string, k: Toks, depth: nat, recDepth: nat)
    requires WellFormed(obj) && Names(t, name) && Stops(Head(k), REL)
    ensures REL <= MEMBER
    ensures ParseAt(REL, Print(obj, ADD, [KwHas] + ([t] + k)), depth, recDepth) ==
      if FitsRaw(Has(obj, name), depth, recDepth) then Some((Has(obj, name), k)) else None
  {
    hide *;
    var k1 := [KwHas] + ([t] + k);
    LevelsAre();
    Spelled(t, name);
    HasShape(obj, name, k, depth, recDepth);
    RelationStops(KwHas, [t] + k);
    RoundTrip.RoundTrip(obj, ADD, k1, depth, recDepth);
    RelationReads(Print(obj, ADD, k1), depth, recDepth);
    RelationName(obj, t, k, depth, recDepth);
    AtRelation(Print(obj, ADD, k1), depth, recDepth);
  }

  lemma PrintBegins(n: Node, l: nat, k: Toks)
    requires OR <= l <= MEMBER
    ensures Head(Print(n, l, k)) != KwIf && (l == MEMBER ==> Head(Print(n, l, k)) != Bang && Head(Print(n, l, k)) != Oper(Minus))
  {
    hide Print;
    PrintHead(n, l, k);
  }

  /** `["name"]` is read like `.name`. */
  lemma IndexSpelled(obj: Node, t: Token, name: string, k: Toks, depth: nat, recDepth: nat)
    requires WellFormed(obj) && IsPlain(t) && Names(t, name) && name != "" && Stops(Head(k), EXPR)
    ensures ParseExpr(Print(obj, MEMBER, [LBracket] + ([t] + ([RBracket] + k))), depth, recDepth)
      == ParseExpr(Print(GetAttr(obj, name), EXPR, k), depth, recDepth)
  {
    hide *;
    var k1 := [LBracket] + ([t] + ([RBracket] + k));
    LevelsAre();
    StopsTighter(Head(k), EXPR, MEMBER);
    AttrWellFormed(obj, name);
    ReadIndex(obj, t, name, k, depth + 1, recDepth);
    PrintBegins(obj, MEMBER, k1);
    LikePrinted(MEMBER, Print(obj, MEMBER, k1), GetAttr(obj, name), k, depth, recDepth);
  }

  lemma ReadIndex(obj: Node, t: Token, name: string, k: Toks, depth: nat, recDepth: nat)
    requires WellFormed(obj) && IsPlain(t) && Names(t, name) && name != "" && Stops(Head(k), MEMBER)
    ensures ParseAt(MEMBER, Print(obj, MEMBER, [LBracket] + ([t] + ([RBracket] + k))), depth, recDepth) ==
      if FitsRaw(GetAttr(obj, name), depth, recDepth) then Some((GetAttr(obj, name), k)) else None
  {
    PlainName(t, name);
    hide *;
    var n, k1 := GetAttr(obj, name), [LBracket] + ([t] + ([RBracket] + k));
    var ts := Print(obj, MEMBER, k1);
    StopsIs(k);
    AttrFacts(obj, name, k, depth, recDepth);
    BracketHead([t] + ([RBracket] + k));
    BaseTrip(obj, k1, depth, recDepth);
    NextStep(obj, k1, Steps(obj), depth, recDepth);
    StepIndex(obj, t, k, depth, recDepth);
    MemberStops(n, k, Steps(obj) + 1, depth, recDepth);
    AtMember(ts, depth, recDepth);
  }

  lemma PlainName(t: Token, name: string)
    requires IsPlain(t) && Names(t, name)
    ensures t.Str? && t.value == name && NameOf(t) == name
  {
  }

  lemma AttrWellFormed(obj: Node, name: string)
    requires WellFormed(obj) && name != ""
    ensures WellFormed(GetAttr(obj, name))
  {
  }

  lemma BracketHead(k: Toks)
    ensures StepHead([LBracket] + k)
  {
  }

  // ---- Records ----

  /** The entries, each behind a token of one's choice for its key. */
  function SpelledEntries(keys: seq<Token>, entries: seq<Entry>, k: Toks): Toks
    requires |keys| == |entries|
    decreases |keys|
  {
    if keys == [] then k
    else
      [keys[0]] + ([Colon] +
      Print(entries[0].value, EXPR, if |keys| == 1 then k else [Comma] + SpelledEntries(keys[1..], entries[1..], k)))
  }

  predicate NamesAll(keys: seq<Token>, entries: seq<Entry>) {
    |keys| == |entries| && forall i :: 0 <= i < |keys| ==> Names(keys[i], entries[i].key)
  }

  /**
   * Record literals: whatever the tokens of the keys, and with or without a comma behind the last entry,
   * they are read like the printed record, and rejected by the same limits.
   */
  lemma RecordSpelled(keys: seq<Token>, entries: seq<Entry>, comma: bool, k: Toks, depth: nat, recDepth: nat)
    requires WellFormed(RecordLit(entries)) && NamesAll(keys, entries) && entries != [] && Stops(Head(k), EXPR)
    ensures ParseExpr([LBrace] + SpelledEntries(keys, entries, (if comma then [Comma] else []) + ([RBrace] + k)), depth, recDepth)
      == ParseExpr(Print(RecordLit(entries), EXPR, k), depth, recDepth)
  {
    KeysAndEntries(keys, entries);
    hide *;
    var ts := SpelledEntries(keys, entries, Tail(comma, k));
    TailIs(comma, k);
    LevelsAre();
    StopsTighter(Head(k), EXPR, MEMBER);
    BraceHead(ts);
    RecordAtMember(keys, entries, comma, k, depth + 1, recDepth);
    LikePrinted(MEMBER, [LBrace] + ts, RecordLit(entries), k, depth, recDepth);
  }

  lemma RecordAtMember(keys: seq<Token>, entries: seq<Entry>, comma: bool, k: Toks, depth: nat, recDepth: nat)
    requires WellFormed(RecordLit(entries)) && NamesAll(keys, entries) && entries != [] && Stops(Head(k), MEMBER)
    ensures |keys| == |entries|
    ensures ParseAt(MEMBER, [LBrace] + SpelledEntries(keys, entries, Tail(comma, k)), depth, recDepth) ==
      if FitsRaw(RecordLit(entries), depth, recDepth) then Some((RecordLit(entries), k)) else None
  {
    hide *;
    StopsIs(k);
    ReadRecord(keys, entries, comma, k, depth, recDepth);
    var ts := [LBrace] + SpelledEntries(keys, entries, Tail(comma, k));
    PrimaryMember(ts, depth, recDepth);
    MemberStops(RecordLit(entries), k, 0, depth, recDepth);
    AtMember(ts, depth, recDepth);
  }

  lemma ReadRecord(keys: seq<Token>, entries: seq<Entry>, comma: bool, k: Toks, depth: nat, recDepth: nat)
    requires WellFormed(RecordLit(entries)) && NamesAll(keys, entries) && entries != [] && !Head(k).ErrorToken?
    ensures |keys| == |entries|
    ensures ParsePrimary([LBrace] + SpelledEntries(keys, entries, Tail(comma, k)), depth, recDepth) ==
      if FitsRaw(RecordLit(entries), depth, recDepth) then Some((RecordLit(entries), k)) else None
  {
    hide *;
    RecordFacts(entries);
    KeysAndEntries(keys, entries);
    var ts := SpelledEntries(keys, entries, Tail(comma, k));
    RecordShape(entries, k, depth, recDepth);
    SpelledBegin(keys, entries, Tail(comma, k));
    RecordPrimary(ts, depth, recDepth);
    RecordOpen(ts, depth, recDepth);
    assert [] + entries == entries;
    ReadSpelled([], keys, entries, comma, k, depth, recDepth + 1);
    RecordEnds(ts, k, depth, recDepth + 1);
  }

  lemma KeysAndEntries(keys: seq<Token>, entries: seq<Entry>)
    requires NamesAll(keys, entries)
    ensures |keys| == |entries|
  {
  }

  lemma BraceHead(ts: Toks)
    ensures Head([LBrace] + ts) == LBrace
  {
  }

  lemma RecordFacts(entries: seq<Entry>)
    requires WellFormed(RecordLit(entries))
    ensures |entries| <= MAX_RECORD_ENTRIES && RoundTrip.DistinctKeys(entries)
    ensures forall i :: 0 <= i < |entries| ==> WellFormed(entries[i].value)
  {
  }

  lemma SpelledBegin(keys: seq<Token>, entries: seq<Entry>, k: Toks)
    requires NamesAll(keys, entries) && entries != []
    ensures !Head(SpelledEntries(keys, entries, k)).ErrorToken? && Head(SpelledEntries(keys, entries, k)) != RBrace
  {
    Spelled(keys[0], entries[0].key);
    hide Print, Names;
  }

  lemma SpelledUnfold(keys: seq<Token>, entries: seq<Entry>, k: Toks, depth: nat, recDepth: nat)
    requires NamesAll(keys, entries) && entries != []
    ensures |keys| == |entries|
    ensures SpelledEntries(keys, entries, k) == [keys[0]] + ([Colon] +
      Print(entries[0].value, EXPR, if |keys| == 1 then k else [Comma] + SpelledEntries(keys[1..], entries[1..], k)))
    ensures NamesAll(keys[1..], entries[1..]) && Names(keys[0], entries[0].key)
    ensures FitEntries(entries, depth, recDepth) <==>
      Fits(entries[0].value, EXPR, depth, recDepth) && FitEntries(entries[1..], depth, recDepth)
    ensures FitEntries([], depth, recDepth)
  {
    hide Print, Fits, Names;
  }

  lemma {:induction false} ReadSpelled(done: seq<Entry>, keys: seq<Token>, entries: seq<Entry>, comma: bool, k: Toks, depth: nat, recDepth: nat)
    requires entries != [] && |done| + |entries| <= MAX_RECORD_ENTRIES && RoundTrip.DistinctKeys(done + entries) && NamesAll(keys, entries)
    requires forall i :: 0 <= i < |entries| ==> WellFormed(entries[i].value)
    ensures ParseEntries(done, SpelledEntries(keys, entries, Tail(comma, k)), depth, recDepth) ==
      if FitEntries(entries, depth, recDepth) then Some((done + entries, [RBrace] + k)) else None
    decreases |entries|
  {
    hide *;
    var e, K := entries[0], Tail(comma, k);
    SpelledUnfold(keys, entries, K, depth, recDepth);
    var k1 := if |keys| == 1 then K else [Comma] + SpelledEntries(keys[1..], entries[1..], K);
    TailIs(comma, k);
    CloserStops(SpelledEntries(keys[1..], entries[1..], K));
    NewKey(done, entries);
    Spelled(keys[0], e.key);
    PrintedExpr(e.value, k1, depth, recDepth);
    RoomForEntry(done);
    EntryToken(done, keys[0], Print(e.value, EXPR, k1), depth, recDepth);
    var ts := SpelledEntries(keys, entries, K);
    if !Fits(e.value, EXPR, depth, recDepth) {
      NoEntry(done, ts, depth, recDepth);
    } else if |keys| == 1 {
      LastEntry(done, ts, e, comma, k, depth, recDepth);
    } else {
      SpelledBegin(keys[1..], entries[1..], K);
      MoreEntries(done, ts, e, SpelledEntries(keys[1..], entries[1..], K), depth, recDepth);
      ReadSpelled(done + [e], keys[1..], entries[1..], comma, k, depth, recDepth);
    }
  }

  lemma RoomForEntry(done: seq<Entry>)
    ensures |done| + 1 <= MAX_RECORD_ENTRIES ==> |done| < 64
  {
  }

  lemma {:induction false} PrintedSpelled(entries: seq<Entry>, k: Toks)
    requires entries != []
    ensures var keys := KeyTokens(entries); NamesAll(keys, entries) && SpelledEntries(keys, entries, k) == PrintEntries(entries, k)
    decreases |entries|
  {
    hide Print, KeyToken, Names;
    KeyNames(entries[0].key);
    if |entries| > 1 {
      PrintedSpelled(entries[1..], k);
    }
  }

  function KeyTokens(entries: seq<Entry>): (keys: seq<Token>)
    ensures |keys| == |entries|
  {
    if entries == [] then [] else [KeyToken(entries[0].key)] + KeyTokens(entries[1..])
  }

  lemma KeyNames(key: string)
    ensures Names(KeyToken(key), key)
  {
    hide Lexer.IsName, Lexer.Quote, Lexer.NameToken;
  }

  /** In particular `{ e1, .., en, }` is read exactly like `{ e1, .., en }`. */
  lemma TrailingComma(entries: seq<Entry>, k: Toks, depth: nat, recDepth: nat)
    requires WellFormed(RecordLit(entries)) && entries != [] && Stops(Head(k), EXPR)
    ensures ParseExpr([LBrace] + PrintEntries(entries, [Comma] + ([RBrace] + k)), depth, recDepth)
      == ParseExpr([LBrace] + PrintEntries(entries, [RBrace] + k), depth, recDepth)
      == if Fits(RecordLit(entries), EXPR, depth, recDepth) then Some((RecordLit(entries), k)) else None
  {
    hide *;
    PrintedSpelled(entries, [Comma] + ([RBrace] + k));
    PrintedSpelled(entries, [RBrace] + k);
    RecordSpelled(KeyTokens(entries), entries, true, k, depth, recDepth);
    RecordSpelled(KeyTokens(entries), entries, false, k, depth, recDepth);
    assert [] + ([RBrace] + k) == [RBrace] + k;
    ParsePrint(RecordLit(entries), k, depth, recDepth);
  }

  // ---- Annotations ----

  /** The note i of the statement m gets the empty value t. */
  function Valued(ss: seq<Statement>, m: nat, i: nat, t: Token): seq<Statement>
    requires m < |ss| && i < |ss[m].notes|
  {
    ss[m := ss[m].(notes := ValuedNotes(ss[m].notes, i, t))]
  }

  function ValuedNotes(notes: seq<Note>, i: nat, t: Token): seq<Note>
    requires i < |notes|
  {
    notes[i := Note(notes[i].key, Some(t))]
  }

  /** `@key("")` is read like `@key`, wherever it stands. */
  lemma {:induction false} EmptyValue(ss: seq<Statement>, m: nat, i: nat, t: Token)
    requires forall j :: 0 <= j < |ss| ==> ShapeStatement(ss[j])
    requires m < |ss| && i < |ss[m].notes| && ss[m].notes[i].value == None && IsPlain(t) && NameOf(t) == ""
    ensures ParsePolicySet(YieldStatements(Valued(ss, m, i, t))) == ParsePolicySet(YieldStatements(ss))
  {
    hide ShapeStatement, WithinStatement, PolicyOf, YieldStatements, ParsePolicySet, ValuedNotes, WithinStatements, PoliciesOf, IsPlain;
    SameStatement(ss[m], i, t);
    var ss' := Valued(ss, m, i, t);
    SamePolicies(ss, ss');
    ReadPolicySet(ss);
    ReadPolicySet(ss');
  }

  lemma {:induction false} SameStatement(s: Statement, i: nat, t: Token)
    requires ShapeStatement(s) && i < |s.notes| && s.notes[i].value == None && IsPlain(t) && NameOf(t) == ""
    ensures var s' := s.(notes := ValuedNotes(s.notes, i, t));
      ShapeStatement(s') && (WithinStatement(s') <==> WithinStatement(s)) && PolicyOf(s') == PolicyOf(s)
  {
    hide Shape, ShapeNote, ShapeConstraint, WithinConstraint, WithinClauses, ScopeOf, ConditionsOf, Statements.DistinctKeys, AnnotationsOf,
      ValuedNotes, IsPlain, NameOf;
    SameNotes(s.notes, i, t);
  }

  lemma {:induction false} SameNotes(notes: seq<Note>, i: nat, t: Token)
    requires i < |notes| && notes[i].value == None && IsPlain(t) && NameOf(t) == ""
    requires forall j :: 0 <= j < |notes| ==> ShapeNote(notes[j])
    ensures var notes' := ValuedNotes(notes, i, t);
      && |notes'| == |notes| && AnnotationsOf(notes') == AnnotationsOf(notes)
      && (Statements.DistinctKeys(notes') <==> Statements.DistinctKeys(notes))
      && forall j :: 0 <= j < |notes'| ==> ShapeNote(notes'[j])
  {
    hide IsBare, IsPlain, NameOf;
    var notes' := ValuedNotes(notes, i, t);
    AnnotationsAt(notes);
    AnnotationsAt(notes');
    assert forall j :: 0 <= j < |notes| ==> AnnotationOf(notes'[j]) == AnnotationOf(notes[j]);
    assert AnnotationsOf(notes') == AnnotationsOf(notes);
    KeysAlike(notes);
    KeysAlike(notes');
    hide Statements.DistinctKeys, AnnotationsOf;
  }

  lemma {:induction false} SamePolicies(ss: seq<Statement>, ss': seq<Statement>)
    requires |ss| == |ss'| && forall j :: 0 <= j < |ss| ==>
      (WithinStatement(ss'[j]) <==> WithinStatement(ss[j])) && PolicyOf(ss'[j]) == PolicyOf(ss[j])
    ensures PoliciesOf(ss') == PoliciesOf(ss) && (WithinStatements(ss') <==> WithinStatements(ss))
    decreases |ss|
  {
    hide WithinStatement, PolicyOf;
    if ss != [] {
      SamePolicies(ss[1..], ss'[1..]);
    }
  }
}
