/**
 * The language of policy texts: a text is accepted exactly if it is a layout of statements of the grammar
 * that keep the limits, and it means the policies that these statements stand for.
 */
module Language {
  import opened Common
  import opened Syntax
  import opened Grammar
  import opened PolicyGrammar
  import opened Printer
  import opened Phrases
  import opened PhraseImage
  import opened Statements
  import Lexemes
  import opened ParserImage
  import PolicyImage
  import Scanner

  // ---- Scopes ----

  lemma TargetPhrase(ts: Toks) returns (p: Phrase)
    requires ParseTarget(ts).Some?
    ensures var (n, k) := ParseTarget(ts).value; Spells(p, MEMBER, n, ts, k, 0, 0) && IsReference(p)
  {
    p := EntityPhrase(ts, 0, 0);
    hide Shape, Within, Yield, NodeOf, LevelOf, ParseEntityRef, Advance;
  }

  lemma InsidePhrase(v: Var, ts: Toks) returns (p: Phrase)
    requires ParseInTarget(v, ts).Some?
    ensures var (n, k) := ParseInTarget(v, ts).value;
      Spells(p, MEMBER, n, ts, k, 0, 0) && (IsReference(p) || (v == Action && IsReferenceSet(p)))
  {
    hide Shape, Within, Yield, NodeOf, NodesOf, LevelOf, ParseTarget, ParseSet, IsReference;
    if v == Action && Head(ts) == LBracket {
      p := SetPhrase(ts, 0, 0);
      ElementsFacts(p, [], 0, 0);
      NodesAt(p.elts);
      var n := ParseSet(ts, 0, 0).value.0;
      forall i | 0 <= i < |p.elts| ensures NodeOf(p.elts[i]).EntityRef? {
        assert n.elts[i] == NodesOf(p.elts)[i];
      }
    } else {
      p := TargetPhrase(ts);
    }
  }

  /** The tokens ts are the constraint s up to k. */
  predicate SpellsConstraint(v: Var, s: Constraint, scope: Scope, ts: Toks, k: Toks) {
    ShapeConstraint(v, s) && WithinConstraint(s) && ScopeOf(s) == scope && YieldConstraint(s, k) == ts
  }

  lemma ConstraintPhrase(v: Var, ts: Toks) returns (s: Constraint)
    requires ParseConstraint(v, ts).Some?
    ensures SpellsConstraint(v, s, ParseConstraint(v, ts).value.0, ts, ParseConstraint(v, ts).value.1)
  {
    hide Shape, Within, Yield, NodeOf, LevelOf, ParseTarget, ParseInTarget, ParseTypeName, ParseIsTarget, PartsTokens, Joined, Advance,
      IsReference, IsReferenceSet;
    var h := Head(ts);
    if h == Oper(Eq) {
      Taken(ts);
      var p := TargetPhrase(Advance(ts).value);
      s := Equal(p);
    } else if h == Oper(In) {
      Taken(ts);
      var p := InsidePhrase(v, Advance(ts).value);
      s := Inside(p);
    } else if h == KwIs {
      s := IsConstraint(v, ts);
    } else {
      s := Anything;
    }
  }

  lemma IsConstraint(v: Var, ts: Toks) returns (s: Constraint)
    requires ParseConstraint(v, ts).Some? && Head(ts) == KwIs
    ensures SpellsConstraint(v, s, ParseConstraint(v, ts).value.0, ts, ParseConstraint(v, ts).value.1)
  {
    hide Shape, Within, Yield, NodeOf, LevelOf, ParseTarget, ParseTypeName, PartsTokens, Joined, Advance, IsReference, IsReferenceSet;
    Taken(ts);
    var t1 := Advance(ts).value;
    var parts := TypeParts(t1);
    var (ty, t2) := ParseTypeName(t1).value;
    if Head(t2) == Oper(In) {
      Taken(t2);
      var p := TargetPhrase(Advance(t2).value);
      s := TypedInside(parts, p);
    } else {
      s := Typed(parts);
    }
  }

  lemma ScopePhrase(v: Var, ts: Toks) returns (s: Constraint)
    requires ParseScope(v, ts).Some?
    ensures var (scope, k) := ParseScope(v, ts).value;
      ShapeConstraint(v, s) && WithinConstraint(s) && ScopeOf(s) == scope && YieldScope(v, s, k) == ts
  {
    hide ShapeConstraint, WithinConstraint, ScopeOf, YieldConstraint, ParseConstraint, Expect;
    TakenToken(ts, KwVar(v));
    s := ConstraintPhrase(v, Expect(ts, KwVar(v)).value);
  }

  lemma ScopesPhrase(ts: Toks) returns (p: Constraint, a: Constraint, r: Constraint)
    requires ParseScopes(ts).Some?
    ensures ShapeConstraint(Principal, p) && ShapeConstraint(Action, a) && ShapeConstraint(Resource, r)
    ensures WithinConstraint(p) && WithinConstraint(a) && WithinConstraint(r)
    ensures var (all, k) := ParseScopes(ts).value;
      && all == (ScopeOf(p), ScopeOf(a), ScopeOf(r))
      && forall s: Statement :: s.principal == p && s.action == a && s.resource == r ==> YieldScopes(s, k) == ts
  {
    hide ShapeConstraint, WithinConstraint, ScopeOf, YieldScope, ParseScope, Expect;
    TakenToken(ts, LParen);
    var t1 := Expect(ts, LParen).value;
    p := ScopePhrase(Principal, t1);
    var t2 := ParseScope(Principal, t1).value.1;
    TakenToken(t2, Comma);
    var t3 := Expect(t2, Comma).value;
    a := ScopePhrase(Action, t3);
    var t4 := ParseScope(Action, t3).value.1;
    TakenToken(t4, Comma);
    var t5 := Expect(t4, Comma).value;
    r := ScopePhrase(Resource, t5);
    var t6 := ParseScope(Resource, t5).value.1;
    TakenToken(t6, RParen);
  }

  // ---- Clauses and notes ----

  lemma ClausePhrase(ts: Toks) returns (c: Clause)
    requires ts != [] && StartsCondition(Head(ts)) && ParseCondition(ts).Some?
    ensures var (cond, k) := ParseCondition(ts).value;
      Shape(c.e) && WithinExpr(c.e, 0, 0) && ConditionOf(c) == cond && YieldClause(c, k) == ts
  {
    hide Shape, WithinExpr, Yield, NodeOf, ParseExpr, Advance, Expect;
    Taken(ts);
    var t1 := Advance(ts).value;
    TakenToken(t1, LBrace);
    var t2 := Expect(t1, LBrace).value;
    var e := ExprPhrase(t2, 0, 0);
    TakenToken(ParseExpr(t2, 0, 0).value.1, RBrace);
    c := Clause(ts[0] == KwUnless, e);
  }

  lemma {:induction false} ClausesPhrase(done: seq<Condition>, ts: Toks) returns (clauses: seq<Clause>)
    requires |done| <= 16 && ParseConditions(done, ts).Some?
    ensures var (all, k) := ParseConditions(done, ts).value;
      && (forall i :: 0 <= i < |clauses| ==> Shape(clauses[i].e)) && WithinClauses(clauses)
      && |done| + |clauses| <= 16 && all == done + ConditionsOf(clauses) && YieldClauses(clauses, k) == ts
    decreases |ts|
  {
    hide Shape, WithinExpr, WithinClauses, ParseCondition, YieldClause, ConditionOf;
    if !StartsCondition(Head(ts)) {
      clauses := [];
      NoClauses();
      assert done + [] == done;
    } else {
      var c := ClausePhrase(ts);
      var (cond, t1) := ParseCondition(ts).value;
      var tail := ClausesPhrase(done + [cond], t1);
      clauses := [c] + tail;
      assert clauses[1..] == tail;
      FirstWithin(clauses);
      assert done + [cond] + ConditionsOf(tail) == done + ([cond] + ConditionsOf(tail));
    }
  }

  lemma NotePhrase(ts: Toks) returns (a: Note)
    requires ts != [] && Head(ts) == At && ParseAnnotation(ts).Some?
    ensures var (ann, k) := ParseAnnotation(ts).value; ShapeNote(a) && AnnotationOf(a) == ann && YieldNote(a, k) == ts
  {
    hide Advance, ParseAnnotationValue, ExtName;
    Taken(ts);
    var t1 := Advance(ts).value;
    Taken(t1);
    var t2 := Advance(t1).value;
    if Head(t2) == LParen {
      var t := ValuePhrase(NameOf(t1[0]), t2);
      a := Note(t1[0], Some(t));
    } else {
      a := Note(t1[0], None);
    }
  }

  lemma ValuePhrase(key: string, ts: Toks) returns (t: Token)
    requires ts != [] && Head(ts) == LParen && ParseAnnotationValue(key, ts).Some?
    ensures var (ann, k) := ParseAnnotationValue(key, ts).value;
      IsPlain(t) && ann == Annotation(key, NameOf(t)) && ts == [LParen] + ([t] + ([RParen] + k))
  {
    hide Advance, Expect;
    Taken(ts);
    var t1 := Advance(ts).value;
    Taken(t1);
    TakenToken(Advance(t1).value, RParen);
    t := t1[0];
  }

  lemma {:induction false} NotesPhrase(done: seq<Annotation>, ts: Toks) returns (notes: seq<Note>)
    requires |done| <= 16 && DistinctAnnotated(done) && ParseAnnotations(done, ts).Some?
    ensures var (all, k) := ParseAnnotations(done, ts).value;
      && (forall i :: 0 <= i < |notes| ==> ShapeNote(notes[i])) && DistinctAnnotated(all)
      && |done| + |notes| <= 16 && all == done + AnnotationsOf(notes) && YieldNotes(notes, k) == ts
    decreases |ts|
  {
    hide ShapeNote, ParseAnnotation, YieldNote, AnnotationOf, HasAnnotation, DistinctAnnotated;
    if Head(ts) != At {
      notes := [];
      assert done + [] == done;
    } else {
      var a := NotePhrase(ts);
      var (ann, t1) := ParseAnnotation(ts).value;
      StillDistinct(done, ann);
      var tail := NotesPhrase(done + [ann], t1);
      notes := [a] + tail;
      assert notes[1..] == tail;
      assert done + [ann] + AnnotationsOf(tail) == done + ([ann] + AnnotationsOf(tail));
    }
  }

  predicate DistinctAnnotated(anns: seq<Annotation>) {
    forall i, j :: 0 <= i < j < |anns| ==> anns[i].key != anns[j].key
  }

  lemma StillDistinct(done: seq<Annotation>, a: Annotation)
    requires DistinctAnnotated(done) && !HasAnnotation(done, a.key)
    ensures DistinctAnnotated(done + [a])
  {
  }

  lemma KeysDiffer(notes: seq<Note>)
    requires DistinctAnnotated(AnnotationsOf(notes))
    ensures DistinctKeys(notes)
  {
    hide NameOf;
    var all := AnnotationsOf(notes);
    AnnotationsAt(notes);
    assert forall i :: 0 <= i < |notes| ==> all[i] == AnnotationOf(notes[i]) && all[i].key == NameOf(notes[i].key);
    hide AnnotationsOf, AnnotationOf;
  }

  // ---- Statements ----

  lemma StatementPhrase(ts: Toks) returns (s: Statement)
    requires ts != [] && ParseAnnotated(ts).Some?
    ensures var (p, k) := ParseAnnotated(ts).value;
      ShapeStatement(s) && WithinStatement(s) && PolicyOf(s) == p && YieldStatement(s, k) == ts
  {
    hide Shape, ShapeNote, ShapeConstraint, WithinConstraint, WithinClauses, DistinctKeys, DistinctAnnotated, ScopeOf, YieldScopes,
      YieldClauses, YieldNotes, AnnotationsOf, ConditionsOf, ParseAnnotations, ParseScopes, ParseConditions, Advance, Expect;
    assert DistinctAnnotated([]) by { NoneAnnotated(); }
    var notes := NotesPhrase([], ts);
    var (anns, t1) := ParseAnnotations([], ts).value;
    assert [] + AnnotationsOf(notes) == AnnotationsOf(notes);
    KeysDiffer(notes);
    assert ParsePolicy(anns, t1).Some?;
    Taken(t1);
    var t2 := Advance(t1).value;
    var p, a, r := ScopesPhrase(t2);
    var t3 := ParseScopes(t2).value.1;
    var clauses := ClausesPhrase([], t3);
    assert [] + ConditionsOf(clauses) == ConditionsOf(clauses);
    var t4 := ParseConditions([], t3).value.1;
    TakenToken(t4, Semicolon);
    s := Statement(notes, t1[0] == KwForbid, p, a, r, clauses);
  }

  lemma NoneAnnotated()
    ensures DistinctAnnotated([])
  {
  }

  lemma {:induction false} StatementsPhrase(done: seq<Policy>, ts: Toks) returns (ss: seq<Statement>)
    requires |done| <= 256 && ParsePolicies(done, ts).Some? && AllProper(ts)
    ensures (forall i :: 0 <= i < |ss| ==> ShapeStatement(ss[i])) && WithinStatements(ss)
    ensures |done| + |ss| <= 256 && ParsePolicies(done, ts).value == done + PoliciesOf(ss) && YieldStatements(ss) == ts
    decreases |ts|
  {
    hide ShapeStatement, WithinStatement, PolicyOf, YieldStatement, ParseAnnotated, AllProper, PolicyImage.Reached, PolicyImage.IsParsed;
    ss := [];
    HeadProper(ts);
    if ts == [] {
      assert done + [] == done;
    } else {
      var s := StatementPhrase(ts);
      var (p, t1) := ParseAnnotated(ts).value;
      PolicyImage.AnnotatedImage(ts);
      PolicyImage.ReachedProper(ts, t1);
      var tail := StatementsPhrase(done + [p], t1);
      ss := [s] + tail;
      assert ss[1..] == tail;
      assert done + [p] + PoliciesOf(tail) == done + ([p] + PoliciesOf(tail));
    }
  }

  /** The token lists that statements within the limits have, and the policies they stand for. */
  predicate Denotes(ss: seq<Statement>, ts: Toks, ps: seq<Policy>) {
    && (forall i :: 0 <= i < |ss| ==> ShapeStatement(ss[i])) && |ss| <= 256 && WithinStatements(ss)
    && YieldStatements(ss) == ts && PoliciesOf(ss) == ps
  }

  /** The tokens of a text are parsed to some policies exactly if they are statements that stand for them. */
  lemma StatementsExactly(ts: Toks, ps: seq<Policy>)
    requires AllProper(ts)
    ensures ParsePolicySet(ts) == Some(ps) <==> exists ss :: Denotes(ss, ts, ps)
  {
    hide ShapeStatement, WithinStatements, YieldStatements, PoliciesOf, ParsePolicies, AllProper;
    if ParsePolicySet(ts) == Some(ps) {
      var ss := StatementsPhrase([], ts);
      assert [] + PoliciesOf(ss) == PoliciesOf(ss);
      assert Denotes(ss, ts, ps);
    }
    forall ss | Denotes(ss, ts, ps) ensures ParsePolicySet(ts) == Some(ps) {
      ReadPolicySet(ss);
    }
  }

  /** The text s is a layout of statements that stand for the policies ps. */
  ghost predicate Means(s: string, ps: seq<Policy>) {
    exists l, ss :: Lexemes.Proper(l) && Lexemes.Written(l) == s && Denotes(ss, Lexemes.TokensOf(l), ps)
  }

  /**
   * The language and its meaning, without naming the tokenizer or the parser: a text is parsed to the
   * policies ps exactly if it is a layout of statements of the grammar, within the limits, that stand for ps.
   */
  lemma AcceptedExactly(s: string, ps: seq<Policy>)
    ensures ParsePolicySet(Scanner.Lex(s)) == Some(ps) <==> Means(s, ps)
  {
    var ts := Scanner.Lex(s);
    PolicyImage.LexProper(s);
    hide Denotes, ParsePolicySet, Lexemes.Proper, Lexemes.Written, Lexemes.TokensOf, Scanner.Lex;
    if ParsePolicySet(ts) == Some(ps) {
      PolicyImage.AcceptedText(s);
      StatementsExactly(ts, ps);
      var ss :| Denotes(ss, ts, ps);
      var l := Lexemes.LayoutOf(s);
    }
    if Means(s, ps) {
      var l, ss :| Lexemes.Proper(l) && Lexemes.Written(l) == s && Denotes(ss, Lexemes.TokensOf(l), ps);
      Lexemes.LexWritten(l);
      StatementsExactly(ts, ps);
    }
  }

  /** A text means at most one list of policies. */
  lemma MeaningUnique(s: string, ps: seq<Policy>, qs: seq<Policy>)
    requires Means(s, ps) && Means(s, qs)
    ensures ps == qs
  {
    hide Means;
    AcceptedExactly(s, ps);
    AcceptedExactly(s, qs);
  }
}
