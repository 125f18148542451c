/**
 * The `like` operator: what a raw pattern means, the compiler that turns it into marker bytes
 * (nxe_cedar_parser_compile_pattern) and the matcher that only backtracks to the last wildcard
 * (nxe_cedar_like_match).
 */
module Pattern {
  import opened Common
  import opened Escapes

  /** One element of a pattern: any run of characters, or one given character. */
  datatype Elem = Star | Lit(c: char)

  /** The declarative meaning of a pattern. */
  ghost predicate Matches(p: seq<Elem>, s: string) {
    if p == [] then s == ""
    else match p[0]
      case Lit(c) => s != "" && s[0] == c && Matches(p[1..], s[1..])
      case Star => exists k :: 0 <= k <= |s| && Matches(p[1..], s[k..])
  }

  /**
   * The first step of a raw pattern at p, and where the next one starts. A bare `*`, or an escape
   * other than `\*` that decodes to `*`, is a wildcard; everything else stands for itself. None if
   * the text is malformed there.
   */
  function Step(raw: string, p: nat): (r: Option<(seq<Elem>, nat)>)
    requires p < |raw|
    ensures r.Some? ==> p < r.value.1 <= |raw| && |r.value.0| <= r.value.1 - p
  {
    if raw[p] == WILD then None
    else if raw[p] == '*' then Some(([Star], p + 1))
    else if raw[p] != '\\' then Some(([Lit(raw[p])], p + 1))
    else if p + 1 >= |raw| then None
    else if raw[p + 1] == '*' then Some(([Lit('*')], p + 2))
    else
      var (bytes, q) :- DecodeEscape(raw, p + 1, true);
      Some((if bytes == "*" then [Star] else Lits(bytes), q))
  }

  /** What the raw text of a pattern says from p on. */
  function Elems(raw: string, p: nat): (r: Option<seq<Elem>>)
    requires p <= |raw|
    ensures r.Some? ==> |r.value| <= |raw| - p
    decreases |raw| - p
  {
    if p == |raw| then Some([])
    else
      var (es, q) :- Step(raw, p);
      var rest :- Elems(raw, q);
      Some(es + rest)
  }

  function Lits(bytes: string): (es: seq<Elem>)
    ensures |es| == |bytes|
  {
    seq(|bytes|, i requires 0 <= i < |bytes| => Lit(bytes[i]))
  }

  function Mark(e: Elem): char {
    match e
    case Star => WILD
    case Lit(c) => c
  }

  function Unmark(c: char): Elem {
    if c == WILD then Star else Lit(c)
  }

  function Marks(es: seq<Elem>): (bytes: string)
    ensures |bytes| == |es|
  {
    seq(|es|, i requires 0 <= i < |es| => Mark(es[i]))
  }

  /** What the bytes of a compiled pattern mean: 0xFF is a wildcard, every other byte itself. */
  function Meaning(bytes: string): (es: seq<Elem>)
    ensures |es| == |bytes|
  {
    seq(|bytes|, i requires 0 <= i < |bytes| => Unmark(bytes[i]))
  }

  /** Drops every marker that directly follows a marker. */
  function Compress(b: string): (r: string)
    ensures |r| <= |b|
    ensures r != "" <==> b != ""
    ensures b != "" ==> r[|r| - 1] == b[|b| - 1]
  {
    if b == "" then ""
    else if |b| >= 2 && b[|b| - 1] == WILD && b[|b| - 2] == WILD then Compress(b[..|b| - 1])
    else Compress(b[..|b| - 1]) + [b[|b| - 1]]
  }

  /** The compiled form of a raw pattern. */
  function Compiled(raw: string): Option<string> {
    var es :- Elems(raw, 0);
    Some(Compress(Marks(es)))
  }

  // ---- Facts about matching ----

  /** A run of literals matches exactly its own text. */
  lemma {:induction false} MatchesLits(p: seq<Elem>, n: nat, s: string)
    requires n <= |p| && forall i :: 0 <= i < n ==> p[i].Lit?
    ensures Matches(p, s) <==>
      n <= |s| && (forall i :: 0 <= i < n ==> p[i].c == s[i]) && Matches(p[n..], s[n..])
    decreases n
  {
    if n == 0 {
      assert p[0..] == p && s[0..] == s;
    } else if s != "" && s[0] == p[0].c {
      MatchesLits(p[1..], n - 1, s[1..]);
      if n <= |s| {
        assert p[1..][n - 1..] == p[n..] && s[1..][n - 1..] == s[n..];
        assert forall i :: 0 <= i < n - 1 ==> p[1..][i] == p[i + 1] && s[1..][i] == s[i + 1];
        if forall i :: 0 <= i < n - 1 ==> p[1..][i].c == s[1..][i] {
          assert forall i :: 0 < i < n ==> p[i] == p[1..][i - 1] && s[i] == s[1..][i - 1];
        }
      }
    }
  }

  /** The text s can be cut in two so that p matches the first part and q the second. */
  ghost predicate CutMatches(p: seq<Elem>, q: seq<Elem>, s: string) {
    exists k :: 0 <= k <= |s| && Matches(p, s[..k]) && Matches(q, s[k..])
  }

  /** Concatenated patterns match concatenated texts. */
  lemma {:induction false} MatchesConcat(p: seq<Elem>, q: seq<Elem>, s: string)
    ensures Matches(p + q, s) <==> CutMatches(p, q, s)
    decreases |p|
  {
    if p == [] {
      assert p + q == q && s[0..] == s;
      assert s[..0] == "" && Matches(p, s[..0]);
    } else {
      assert (p + q)[1..] == p[1..] + q && (p + q)[0] == p[0];
      if p[0].Lit? {
        if s != "" {
          MatchesConcat(p[1..], q, s[1..]);
        }
        CutLit(p, q, s);
      } else {
        forall j | 0 <= j <= |s| {
          MatchesConcat(p[1..], q, s[j..]);
        }
        CutStar(p, q, s);
      }
    }
  }

  lemma CutLit(p: seq<Elem>, q: seq<Elem>, s: string)
    requires p != [] && p[0].Lit?
    ensures CutMatches(p, q, s) <==> s != "" && s[0] == p[0].c && CutMatches(p[1..], q, s[1..])
  {
    if CutMatches(p, q, s) {
      var k :| 0 <= k <= |s| && Matches(p, s[..k]) && Matches(q, s[k..]);
      assert k > 0 && s[..k][0] == s[0];
      assert s[..k][1..] == s[1..][..k - 1] && s[k..] == s[1..][k - 1..];
    }
    if s != "" && s[0] == p[0].c && CutMatches(p[1..], q, s[1..]) {
      var k :| 0 <= k <= |s[1..]| && Matches(p[1..], s[1..][..k]) && Matches(q, s[1..][k..]);
      assert s[..k + 1][1..] == s[1..][..k] && s[k + 1..] == s[1..][k..];
    }
  }

  lemma CutStar(p: seq<Elem>, q: seq<Elem>, s: string)
    requires p != [] && p[0].Star?
    ensures CutMatches(p, q, s) <==> exists j :: 0 <= j <= |s| && CutMatches(p[1..], q, s[j..])
  {
    if CutMatches(p, q, s) {
      var k :| 0 <= k <= |s| && Matches(p, s[..k]) && Matches(q, s[k..]);
      var j :| 0 <= j <= k && Matches(p[1..], s[..k][j..]);
      assert s[..k][j..] == s[j..][..k - j] && s[k..] == s[j..][k - j..];
      assert CutMatches(p[1..], q, s[j..]);
    }
    if j :| 0 <= j <= |s| && CutMatches(p[1..], q, s[j..]) {
      var k :| 0 <= k <= |s[j..]| && Matches(p[1..], s[j..][..k]) && Matches(q, s[j..][k..]);
      assert s[..j + k][j..] == s[j..][..k] && s[j + k..] == s[j..][k..];
      assert Matches(p, s[..j + k]);
    }
  }

  lemma StarMatchesAll(s: string)
    ensures Matches([Star], s)
  {
    assert s[|s|..] == "" && Matches([Star][1..], s[|s|..]);
  }

  /** A second wildcard adds nothing. */
  lemma DoubleStar(p: seq<Elem>, s: string)
    ensures Matches(p + [Star] + [Star], s) <==> Matches(p + [Star], s)
  {
    MatchesConcat(p + [Star], [Star], s);
    MatchesConcat(p, [Star], s);
    if Matches(p + [Star] + [Star], s) {
      var k :| 0 <= k <= |s| && Matches(p + [Star], s[..k]) && Matches([Star], s[k..]);
      MatchesConcat(p, [Star], s[..k]);
      var j :| 0 <= j <= k && Matches(p, s[..k][..j]) && Matches([Star], s[..k][j..]);
      assert s[..k][..j] == s[..j];
      StarMatchesAll(s[j..]);
    }
    if Matches(p + [Star], s) {
      assert s[..|s|] == s;
      StarMatchesAll(s[|s|..]);
    }
  }

  /** Compressing runs of wildcards keeps the language. */
  lemma {:induction false} CompressKeepsMeaning(b: string, s: string)
    ensures Matches(Meaning(Compress(b)), s) <==> Matches(Meaning(b), s)
    decreases |b|
  {
    if b != "" {
      var b', c := b[..|b| - 1], b[|b| - 1];
      assert Meaning(b) == Meaning(b') + [Unmark(c)];
      if |b| >= 2 && c == WILD && b[|b| - 2] == WILD {
        assert Meaning(b') == Meaning(b'[..|b'| - 1]) + [Star];
        DoubleStar(Meaning(b'[..|b'| - 1]), s);
        CompressKeepsMeaning(b', s);
      } else {
        assert Meaning(Compress(b)) == Meaning(Compress(b')) + [Unmark(c)];
        MatchesConcat(Meaning(b'), [Unmark(c)], s);
        MatchesConcat(Meaning(Compress(b')), [Unmark(c)], s);
        forall k | 0 <= k <= |s| {
          CompressKeepsMeaning(b', s[..k]);
        }
      }
    }
  }

  /** No literal 0xFF survives compilation, so a marker byte is always a wildcard. */
  lemma {:induction false} NoLiteralWild(raw: string, p: nat)
    requires p <= |raw| && Elems(raw, p).Some?
    ensures Lit(WILD) !in Elems(raw, p).value
    decreases |raw| - p
  {
    if p < |raw| {
      if raw[p] == '\\' && raw[p + 1] != '*' {
        NoWildFromEscape(raw, p + 1);
      }
      NoLiteralWild(raw, Step(raw, p).value.1);
    }
  }

  lemma MeaningOfMarks(es: seq<Elem>)
    requires Lit(WILD) !in es
    ensures Meaning(Marks(es)) == es
  {
  }

  /**
   * Matching the compiled bytes is matching the raw pattern: for every pattern the compiler accepts
   * and every subject.
   */
  lemma CompiledMeansRaw(raw: string, subject: string)
    requires Compiled(raw).Some?
    ensures Matches(Meaning(Compiled(raw).value), subject) <==> Matches(Elems(raw, 0).value, subject)
  {
    var es := Elems(raw, 0).value;
    hide Matches, Compress, Elems;
    NoLiteralWild(raw, 0);
    MeaningOfMarks(es);
    CompressKeepsMeaning(Marks(es), subject);
  }

  /** A compiled pattern is no longer than its raw text and has no two markers side by side. */
  lemma CompiledShape(raw: string)
    requires Compiled(raw).Some?
    ensures |Compiled(raw).value| <= |raw|
    ensures NoDoubleWild(Compiled(raw).value)
  {
    CompressNoDouble(Marks(Elems(raw, 0).value));
  }

  predicate NoDoubleWild(b: string) {
    forall i :: 0 < i < |b| ==> !(b[i - 1] == WILD && b[i] == WILD)
  }

  lemma {:induction false} CompressNoDouble(b: string)
    ensures NoDoubleWild(Compress(b))
    decreases |b|
  {
    if b != "" {
      CompressNoDouble(b[..|b| - 1]);
    }
  }

  /** A pattern without adjacent markers is compressed already. */
  lemma {:induction false} CompressId(b: string)
    requires NoDoubleWild(b)
    ensures Compress(b) == b
    decreases |b|
  {
    if b != "" {
      CompressId(b[..|b| - 1]);
    }
  }

  // ---- The raw spelling of a compiled pattern ----

  /** Raw text for one byte of a compiled pattern. */
  function SpellByte(c: char): string {
    if c == WILD then "*" else if c == '*' then "\\*" else if c == '\\' then "\\\\"
    else if c == '"' then "\\\"" else [c]
  }

  /** Raw text that compiles to the given bytes. */
  function Spell(b: string): string {
    if b == "" then "" else SpellByte(b[0]) + Spell(b[1..])
  }

  lemma {:induction false} SpellElems(b: string, raw: string, p: nat)
    requires p <= |raw| && raw[p..] == Spell(b)
    ensures Elems(raw, p) == Some(Meaning(b))
    decreases |b|
  {
    hide SpellByte, Step;
    if b != "" {
      var c, n := b[0], |SpellByte(b[0])|;
      SpelledAt(c, Spell(b[1..]), raw, p);
      SpellElems(b[1..], raw, p + n);
      SpelledElem(c, raw, p);
      assert Meaning(b) == [Unmark(c)] + Meaning(b[1..]);
    }
  }

  lemma SpelledElem(c: char, raw: string, p: nat)
    requires var n := |SpellByte(c)|; p + n <= |raw| && raw[p] == SpellByte(c)[0] && (n == 2 ==> raw[p + 1] == c)
    requires Elems(raw, p + |SpellByte(c)|).Some?
    ensures Elems(raw, p) == Some([Unmark(c)] + Elems(raw, p + |SpellByte(c)|).value)
  {
    if c == '"' || c == '\\' {
      assert DecodeEscape(raw, p + 1, true) == Some(([c], p + 2));
      assert Lits([c]) == [Lit(c)];
    }
  }

  lemma SpelledAt(c: char, rest: string, raw: string, p: nat)
    requires p <= |raw| && raw[p..] == SpellByte(c) + rest
    ensures var n := |SpellByte(c)|;
      p + n <= |raw| && raw[p..p + n] == SpellByte(c) && raw[p + n..] == rest && raw[p] == SpellByte(c)[0]
    ensures |SpellByte(c)| == 2 ==> raw[p + 1] == c
  {
    var n := |SpellByte(c)|;
    assert raw[p..][..n] == SpellByte(c) && raw[p..][n..] == rest;
    assert raw[p] == raw[p..][0];
    assert n == 2 ==> raw[p + 1] == raw[p..][1];
  }

  /** Compiling undoes spelling. */
  lemma CompileSpell(b: string)
    requires NoDoubleWild(b)
    ensures Compiled(Spell(b)) == Some(b)
  {
    SpellElems(b, Spell(b), 0);
    assert Marks(Meaning(b)) == b;
    CompressId(b);
  }

  // ---- The compiler ----

  method Put(dst: array<char>, d: nat, c: char)
    requires d < dst.Length
    modifies dst
    ensures dst[..d + 1] == old(dst[..d]) + [c]
    ensures forall i :: d < i < dst.Length ==> dst[i] == old(dst[i])
  {
    dst[d] := c;
  }

  lemma MarksConcat(a: seq<Elem>, b: seq<Elem>)
    ensures Marks(a + b) == Marks(a) + Marks(b)
  {
  }

  /** An escape inside a pattern: like any other, but a decoded `*` becomes a wildcard. */
  method TranslateEscape(raw: string, src: nat, dst: array<char>, d: nat) returns (r: Option<(nat, nat)>)
    requires d < src < |raw| == dst.Length && raw[src] != '*'
    modifies dst
    ensures r.Some? == DecodeEscape(raw, src, true).Some?
    ensures r.Some? ==>
      var (bytes, next) := DecodeEscape(raw, src, true).value;
      && r.value.0 == next && r.value.1 <= next
      && dst[..r.value.1] == old(dst[..d]) + Marks(if bytes == "*" then [Star] else Lits(bytes))
  {
    r := Decode(raw, src, dst, d, true);
    if r.None? {
      return;
    }
    ghost var bytes := DecodeEscape(raw, src, true).value.0;
    assert dst[..r.value.1] == dst[..d] + dst[d..r.value.1];
    assert dst[d] == dst[d..r.value.1][0];
    if r.value.1 == d + 1 && dst[d] == '*' {
      assert bytes == "*";
      dst[d] := WILD;
      assert dst[..r.value.1] == dst[..d] + [WILD];
      assert Marks([Star]) == [WILD];
    } else {
      assert Marks(Lits(bytes)) == bytes;
    }
  }

  /** One round of the translating loop. */
  method TranslateStep(raw: string, src: nat, dst: array<char>, d: nat) returns (r: Option<(nat, nat)>)
    requires d <= src < |raw| == dst.Length
    modifies dst
    ensures r.Some? == Step(raw, src).Some?
    ensures r.Some? ==>
      && r.value.0 == Step(raw, src).value.1 && r.value.1 <= r.value.0
      && dst[..r.value.1] == old(dst[..d]) + Marks(Step(raw, src).value.0)
  {
    if raw[src] == WILD {
      return None;
    }
    if raw[src] == '*' {
      Put(dst, d, WILD);
      return Some((src + 1, d + 1));
    }
    if raw[src] == '\\' {
      if src + 1 >= |raw| {
        return None;
      }
      if raw[src + 1] == '*' {
        Put(dst, d, '*');
        return Some((src + 2, d + 1));
      }
      r := TranslateEscape(raw, src + 1, dst, d);
      return;
    }
    Put(dst, d, raw[src]);
    return Some((src + 1, d + 1));
  }

  /** First pass: translate into `dst`, which is as long as the raw text. */
  method Translate(raw: string, dst: array<char>) returns (r: Option<nat>)
    requires dst.Length == |raw|
    modifies dst
    ensures r.Some? == Elems(raw, 0).Some?
    ensures r.Some? ==> r.value <= |raw| && dst[..r.value] == Marks(Elems(raw, 0).value)
  {
    hide Step, Elems, Marks;
    var src: nat, d: nat := 0, 0;
    ghost var done: seq<Elem> := [];
    assert Marks([]) == "";
    NothingDone(Elems(raw, 0));
    while src < |raw|
      invariant d <= src <= |raw|
      invariant dst[..d] == Marks(done)
      invariant Elems(raw, 0) == Before(done, Elems(raw, src))
      decreases |raw| - src
    {
      ghost var step := Step(raw, src);
      ElemsStep(raw, src, done);
      var next := TranslateStep(raw, src, dst, d);
      if next.None? {
        return None;
      }
      src, d := next.value.0, next.value.1;
      MarksConcat(done, step.value.0);
      done := done + step.value.0;
    }
    ElemsEnd(raw, done);
    return Some(d);
  }

  function Before(done: seq<Elem>, rest: Option<seq<Elem>>): Option<seq<Elem>> {
    match rest
    case None => None
    case Some(es) => Some(done + es)
  }

  lemma NothingDone(rest: Option<seq<Elem>>)
    ensures Before([], rest) == rest
  {
    if rest.Some? {
      assert [] + rest.value == rest.value;
    }
  }

  lemma ElemsStep(raw: string, p: nat, done: seq<Elem>)
    requires p < |raw|
    ensures Before(done, Elems(raw, p)) ==
      if Step(raw, p).None? then None
      else Before(done + Step(raw, p).value.0, Elems(raw, Step(raw, p).value.1))
  {
    hide Step;
    if Elems(raw, p).Some? {
      var (es, q) := Step(raw, p).value;
      assert done + (es + Elems(raw, q).value) == done + es + Elems(raw, q).value;
    }
  }

  lemma ElemsEnd(raw: string, done: seq<Elem>)
    ensures Before(done, Elems(raw, |raw|)) == Some(done)
  {
    assert done + [] == done;
  }

  /** The run of markers at r, up to `len`. */
  method SkipMarkers(dst: array<char>, r: nat, len: nat) returns (q: nat)
    requires r <= len <= dst.Length
    ensures r <= q <= len && (q < len ==> dst[q] != WILD)
    ensures forall i :: r <= i < q ==> dst[i] == WILD
  {
    q := r;
    while q < len && dst[q] == WILD
      invariant r <= q <= len
      invariant forall i :: r <= i < q ==> dst[i] == WILD
    {
      q := q + 1;
    }
  }

  lemma CompressSnoc(b: string, r: nat)
    requires r < |b|
    ensures Compress(b[..r + 1]) ==
      if r > 0 && b[r - 1] == WILD && b[r] == WILD then Compress(b[..r]) else Compress(b[..r]) + [b[r]]
  {
    assert b[..r + 1][..r] == b[..r];
  }

  /** A run of markers behind a marker is dropped. */
  lemma {:induction false} CompressRun(b: string, r: nat, q: nat)
    requires 0 < r <= q <= |b| && forall i :: r - 1 <= i < q ==> b[i] == WILD
    ensures Compress(b[..q]) == Compress(b[..r])
    decreases q
  {
    if r < q {
      CompressRun(b, r, q - 1);
      CompressSnoc(b, q - 1);
    }
  }

  /** Second pass: squeeze runs of markers, in place, behind the reading position. */
  method Squeeze(dst: array<char>, len: nat) returns (w: nat)
    requires len <= dst.Length
    modifies dst
    ensures w <= len && dst[..w] == Compress(old(dst[..len]))
  {
    assert Compress("") == "";
    hide Compress;
    ghost var b := dst[..len];
    var r := 0;
    w := 0;
    assert b[..0] == "";
    while r < len
      invariant w <= r <= len
      invariant forall i :: r <= i < len ==> dst[i] == b[i]
      invariant dst[..w] == Compress(b[..r])
      invariant 0 < r < len ==> !(b[r - 1] == WILD && b[r] == WILD)
      decreases len - r
    {
      r, w := SqueezeStep(dst, r, w, len, b);
    }
    assert b[..r] == b;
  }

  /** Keeps one byte, and skips the markers behind a marker. */
  method SqueezeStep(dst: array<char>, r: nat, w: nat, len: nat, ghost b: string) returns (r': nat, w': nat)
    requires w <= r < len == |b| <= dst.Length
    requires (forall i :: r <= i < len ==> dst[i] == b[i]) && dst[..w] == Compress(b[..r])
    requires 0 < r ==> !(b[r - 1] == WILD && b[r] == WILD)
    modifies dst
    ensures w' <= r' <= len && r < r'
    ensures (forall i :: r' <= i < len ==> dst[i] == b[i]) && dst[..w'] == Compress(b[..r'])
    ensures r' < len ==> !(b[r' - 1] == WILD && b[r'] == WILD)
  {
    hide Compress;
    var c := dst[r];
    CompressSnoc(b, r);
    Put(dst, w, c);
    r', w' := r + 1, w + 1;
    if c == WILD {
      r' := SkipMarkers(dst, r', len);
      assert forall i :: r < i < r' ==> b[i] == dst[i];
      CompressRun(b, r + 1, r');
    }
  }

  /** The pattern compiler: None is the source's error return. */
  method Compile(raw: string) returns (r: Option<string>)
    ensures r == Compiled(raw)
  {
    var dst := new char[|raw|];
    var len := Translate(raw, dst);
    if len.None? {
      return None;
    }
    var w := Squeeze(dst, len.value);
    return Some(dst[..w]);
  }

  // ---- The matcher ----

  /** Once the text is used up, only wildcards may be left. */
  lemma {:induction false} MatchesEmpty(p: seq<Elem>)
    ensures Matches(p, "") <==> forall i :: 0 <= i < |p| ==> p[i] == Star
  {
    if p != [] {
      MatchesEmpty(p[1..]);
      assert ""[0..] == "";
      if forall i :: 0 <= i < |p[1..]| ==> p[1..][i] == Star {
        assert forall i :: 0 < i < |p| ==> p[i] == p[1..][i - 1];
      }
      if forall i :: 0 <= i < |p| ==> p[i] == Star {
        assert forall i :: 0 <= i < |p[1..]| ==> p[1..][i] == p[i + 1];
      }
    }
  }

  /** Some suffix of s from st on matches m from sp on: what a recorded wildcard still promises. */
  ghost predicate SomeSuffix(m: seq<Elem>, sp: nat, s: string, st: nat)
    requires sp <= |m|
  {
    exists k :: st <= k <= |s| && Matches(m[sp..], s[k..])
  }

  /** Between the recorded wildcard and the current position lie literals that have matched. */
  ghost predicate Matched(m: seq<Elem>, sp: nat, pp: nat, s: string, st: nat, ss: nat) {
    sp <= pp <= |m| && st <= ss <= |s| && pp - sp == ss - st
    && forall i :: sp <= i < pp ==> m[i] == Lit(s[i - sp + st])
  }

  lemma MatchesFrom(m: seq<Elem>, sp: nat, pp: nat, s: string, st: nat, ss: nat, k: nat)
    requires Matched(m, sp, pp, s, st, ss) && st <= k <= |s|
    ensures Matches(m[sp..], s[k..]) ==> k + (pp - sp) <= |s| && Matches(m[pp..], s[k + (pp - sp)..])
    ensures k == st ==> (Matches(m[sp..], s[k..]) <==> Matches(m[pp..], s[ss..]))
  {
    var n := pp - sp;
    assert forall i :: 0 <= i < n ==> m[sp..][i] == m[sp + i];
    MatchesLits(m[sp..], n, s[k..]);
    assert m[sp..][n..] == m[pp..];
    if k + n <= |s| {
      assert s[k..][n..] == s[k + n..];
    }
    if k == st {
      assert forall i :: 0 <= i < n ==> m[sp..][i].c == s[k..][i];
    }
  }

  /** Meeting another wildcard: the earlier one can be forgotten. */
  lemma NextStar(m: seq<Elem>, sp: nat, pp: nat, s: string, st: nat, ss: nat)
    requires Matched(m, sp, pp, s, st, ss) && pp < |m| && m[pp] == Star
    ensures SomeSuffix(m, sp, s, st) <==> SomeSuffix(m, pp + 1, s, ss)
  {
    StarIsSuffix(m, pp, s, ss);
    MatchesFrom(m, sp, pp, s, st, ss, st);
    if SomeSuffix(m, sp, s, st) {
      var k :| st <= k <= |s| && Matches(m[sp..], s[k..]);
      MatchesFrom(m, sp, pp, s, st, ss, k);
      StarIsSuffix(m, pp, s, k + (pp - sp));
    }
  }

  lemma StarIsSuffix(m: seq<Elem>, pp: nat, s: string, ss: nat)
    requires pp < |m| && m[pp] == Star && ss <= |s|
    ensures Matches(m[pp..], s[ss..]) <==> SomeSuffix(m, pp + 1, s, ss)
  {
    assert m[pp..][1..] == m[pp + 1..];
    assert forall k :: 0 <= k <= |s| - ss ==> s[ss..][k..] == s[ss + k..];
    if SomeSuffix(m, pp + 1, s, ss) {
      var k :| ss <= k <= |s| && Matches(m[pp + 1..], s[k..]);
      assert s[ss..][k - ss..] == s[k..];
    }
  }

  /** A mismatch: the recorded wildcard has to swallow one more character. */
  lemma Backtrack(m: seq<Elem>, sp: nat, pp: nat, s: string, st: nat, ss: nat)
    requires Matched(m, sp, pp, s, st, ss) && ss < |s|
    requires pp == |m| || (m[pp].Lit? && m[pp].c != s[ss])
    ensures SomeSuffix(m, sp, s, st) <==> SomeSuffix(m, sp, s, st + 1)
  {
    MatchesFrom(m, sp, pp, s, st, ss, st);
    assert s[ss..][0] == s[ss];
    assert !Matches(m[pp..], s[ss..]);
  }

  /** The text is used up: the recorded wildcard cannot give anything back. */
  lemma AtEnd(m: seq<Elem>, sp: nat, pp: nat, s: string, st: nat)
    requires Matched(m, sp, pp, s, st, |s|)
    ensures SomeSuffix(m, sp, s, st) <==> Matches(m[pp..], "")
  {
    MatchesFrom(m, sp, pp, s, st, |s|, st);
    assert s[|s|..] == "";
    if SomeSuffix(m, sp, s, st) {
      var k :| st <= k <= |s| && Matches(m[sp..], s[k..]);
      MatchesFrom(m, sp, pp, s, st, |s|, k);
    }
  }

  /** The greedy matcher decides the declarative meaning of any compiled pattern. */
  method LikeMatch(subject: string, pattern: string) returns (r: bool)
    ensures r == Matches(Meaning(pattern), subject)
  {
    ghost var m := Meaning(pattern);
    assert forall i :: 0 <= i < |m| ==> m[i] == Unmark(pattern[i]);
    hide Matches, Meaning, SomeSuffix, Matched;
    var s: nat, p: nat := 0, 0;
    var starP: Option<nat>, starS: nat := None, 0;
    assert m[0..] == m && subject[0..] == subject;
    while s < |subject|
      invariant s <= |subject| && p <= |m|
      invariant starP.None? ==> (Matches(m, subject) <==> Matches(m[p..], subject[s..]))
      invariant starP.Some? ==>
        && starP.value <= |m| && starS <= s && Matched(m, starP.value, p, subject, starS, s)
        && (Matches(m, subject) <==> SomeSuffix(m, starP.value, subject, starS))
      decreases if starP.None? then |subject| + 1 else |subject| - starS, |m| - p
    {
      if p < |pattern| && pattern[p] == WILD {
        if starP.Some? {
          NextStar(m, starP.value, p, subject, starS, s);
        } else {
          StarIsSuffix(m, p, subject, s);
        }
        p := p + 1;
        NoneMatched(m, p, subject, s);
        starP, starS := Some(p), s;
      } else if p < |pattern| && pattern[p] == subject[s] {
        LitStep(m, p, subject, s);
        if starP.Some? {
          OneMatched(m, starP.value, p, subject, starS, s);
        }
        p, s := p + 1, s + 1;
      } else if starP.Some? {
        Backtrack(m, starP.value, p, subject, starS, s);
        starS := starS + 1;
        MatchedBounds(m, starP.value, p, subject, starS - 1, s);
        NoneMatched(m, starP.value, subject, starS);
        p, s := starP.value, starS;
      } else {
        LitMismatch(m, p, subject, s);
        return false;
      }
    }
    if starP.Some? {
      AtEnd(m, starP.value, p, subject, starS);
    }
    assert subject[s..] == "";
    r := OnlyStars(pattern, p);
  }

  lemma NoneMatched(m: seq<Elem>, p: nat, s: string, k: nat)
    requires p <= |m| && k <= |s|
    ensures Matched(m, p, p, s, k, k)
  {
  }

  lemma OneMatched(m: seq<Elem>, sp: nat, pp: nat, s: string, st: nat, ss: nat)
    requires Matched(m, sp, pp, s, st, ss) && pp < |m| && ss < |s| && m[pp] == Lit(s[ss])
    ensures Matched(m, sp, pp + 1, s, st, ss + 1)
  {
  }

  lemma MatchedBounds(m: seq<Elem>, sp: nat, pp: nat, s: string, st: nat, ss: nat)
    requires Matched(m, sp, pp, s, st, ss)
    ensures sp <= pp <= |m| && st <= ss <= |s|
  {
  }

  /** What is left of the pattern is wildcards only. */
  method OnlyStars(pattern: string, start: nat) returns (r: bool)
    requires start <= |pattern|
    ensures r == Matches(Meaning(pattern)[start..], "")
  {
    ghost var rest := Meaning(pattern)[start..];
    MatchesEmpty(rest);
    hide Matches;
    var p := start;
    while p < |pattern| && pattern[p] == WILD
      invariant start <= p <= |pattern|
      invariant forall i :: 0 <= i < p - start ==> rest[i] == Star
    {
      p := p + 1;
    }
    assert p < |pattern| ==> rest[p - start] == Unmark(pattern[p]);
    return p == |pattern|;
  }

  lemma LitStep(m: seq<Elem>, p: nat, s: string, k: nat)
    requires p < |m| && k < |s| && m[p] == Lit(s[k])
    ensures Matches(m[p..], s[k..]) <==> Matches(m[p + 1..], s[k + 1..])
  {
    assert m[p..][1..] == m[p + 1..] && s[k..][1..] == s[k + 1..];
  }

  lemma LitMismatch(m: seq<Elem>, p: nat, s: string, k: nat)
    requires p <= |m| && k < |s| && (p < |m| ==> m[p].Lit? && m[p].c != s[k])
    ensures !Matches(m[p..], s[k..])
  {
    assert p < |m| ==> m[p..][0] == m[p];
  }
}
