/**
 * Structural equality of values (nxe_cedar_value_equals): a recursive greedy matching with a "used"
 * bitmap and three results. It decides whether there is a recursive bijection between two values.
 */
module Equality {
  import opened Bitmap
  import opened Common
  import opened Values

  const MAX_EQUALS_DEPTH: nat := 32
  const MAX_EQUALS_ELTS: nat := 1024
  const BITMAP_WORDS: nat := 16

  datatype Tri = No | Yes | Fail

  // ---- The relation: a bijection at every level ----

  /** f maps [0, n) one to one onto itself, and g is its inverse. */
  predicate Inverses(f: seq<nat>, g: seq<nat>, n: nat) {
    && |f| == |g| == n
    && (forall i :: 0 <= i < n ==> f[i] < n && g[f[i]] == i)
    && (forall j :: 0 <= j < n ==> g[j] < n && f[g[j]] == j)
  }

  /** Equality of values without members. Slots and the unused bytes of an IPv4 address do not count. */
  predicate LeafEqual(a: Value, b: Value) {
    match a
    case StrV(s) => b.StrV? && s == b.s
    case LongV(n) => b.LongV? && n == b.n
    case BoolV(x) => b.BoolV? && x == b.b
    case EntityV(ty, id, _) => b.EntityV? && ty == b.ty && id == b.id
    case IpV(ip) =>
      b.IpV? && ip.v6 == b.ip.v6 && ip.prefix == b.ip.prefix
      && (if ip.v6 then ip.addr == b.ip.addr else ip.addr[..4] == b.ip.addr[..4])
    case DecimalV(n) => b.DecimalV? && n == b.scaled
    case DatetimeV(ms) => b.DatetimeV? && ms == b.ms
    case DurationV(ms) => b.DurationV? && ms == b.length
    case ErrorV => b.ErrorV?
    case SetV(_) => false
    case RecordV(_) => false
  }

  /** Sets correspond one to one; records correspond one to one, name by name. */
  ghost predicate Same(a: Value, b: Value)
    decreases a, 1
  {
    match a
    case SetV(xs) => b.SetV? && exists f, g :: SetVia(xs, b.elts, f, g)
    case RecordV(xs) => b.RecordV? && exists f, g :: RecordVia(xs, b.attrs, f, g)
    case _ => LeafEqual(a, b)
  }

  ghost predicate SetVia(xs: seq<Value>, ys: seq<Value>, f: seq<nat>, g: seq<nat>)
    decreases xs, 0
  {
    |xs| == |ys| && Inverses(f, g, |xs|) && forall i :: 0 <= i < |xs| ==> Same(xs[i], ys[f[i]])
  }

  ghost predicate RecordVia(xs: seq<Attr>, ys: seq<Attr>, f: seq<nat>, g: seq<nat>)
    decreases xs, 0
  {
    |xs| == |ys| && Inverses(f, g, |xs|)
    && forall i :: 0 <= i < |xs| ==> xs[i].name == ys[f[i]].name && Same(xs[i].value, ys[f[i]].value)
  }

  // ---- It is an equivalence ----

  function Identity(n: nat): (f: seq<nat>)
    ensures Inverses(f, f, n)
  {
    seq(n, i => i)
  }

  lemma {:induction false} Reflexive(a: Value)
    ensures Same(a, a)
  {
    match a {
      case SetV(xs) =>
        var f := Identity(|xs|);
        forall i | 0 <= i < |xs| ensures Same(xs[i], xs[f[i]]) {
          Reflexive(xs[i]);
        }
        assert SetVia(xs, xs, f, f);
      case RecordV(xs) =>
        var f := Identity(|xs|);
        forall i | 0 <= i < |xs| ensures Same(xs[i].value, xs[f[i]].value) {
          Reflexive(xs[i].value);
        }
        assert RecordVia(xs, xs, f, f);
      case _ =>
    }
  }

  lemma {:induction false} Symmetric(a: Value, b: Value)
    requires Same(a, b)
    ensures Same(b, a)
    decreases a
  {
    match a {
      case SetV(xs) =>
        var ys := b.elts;
        var f, g :| SetVia(xs, ys, f, g);
        forall j | 0 <= j < |ys| ensures Same(ys[j], xs[g[j]]) {
          Symmetric(xs[g[j]], ys[f[g[j]]]);
        }
        assert SetVia(ys, xs, g, f);
      case RecordV(xs) =>
        var ys := b.attrs;
        var f, g :| RecordVia(xs, ys, f, g);
        forall j | 0 <= j < |ys| ensures ys[j].name == xs[g[j]].name && Same(ys[j].value, xs[g[j]].value) {
          assert ys[f[g[j]]] == ys[j];
          Symmetric(xs[g[j]].value, ys[f[g[j]]].value);
        }
        assert RecordVia(ys, xs, g, f);
      case _ =>
    }
  }

  function Compose(f: seq<nat>, g: seq<nat>): (h: seq<nat>)
    requires forall i :: 0 <= i < |f| ==> f[i] < |g|
    ensures |h| == |f| && forall i :: 0 <= i < |f| ==> h[i] == g[f[i]]
  {
    seq(|f|, i requires 0 <= i < |f| => g[f[i]])
  }

  lemma {:induction false} Transitive(a: Value, b: Value, c: Value)
    requires Same(a, b) && Same(b, c)
    ensures Same(a, c)
    decreases a
  {
    match a {
      case SetV(xs) =>
        var f, g :| SetVia(xs, b.elts, f, g);
        var f', g' :| SetVia(b.elts, c.elts, f', g');
        var h := Compose(f, f');
        forall i | 0 <= i < |xs| ensures Same(xs[i], c.elts[h[i]]) {
          Transitive(xs[i], b.elts[f[i]], c.elts[f'[f[i]]]);
        }
        assert SetVia(xs, c.elts, h, Compose(g', g));
      case RecordV(xs) =>
        var f, g :| RecordVia(xs, b.attrs, f, g);
        var f', g' :| RecordVia(b.attrs, c.attrs, f', g');
        var h := Compose(f, f');
        forall i | 0 <= i < |xs| ensures xs[i].name == c.attrs[h[i]].name && Same(xs[i].value, c.attrs[h[i]].value) {
          Transitive(xs[i].value, b.attrs[f[i]].value, c.attrs[f'[f[i]]].value);
        }
        assert RecordVia(xs, c.attrs, h, Compose(g', g));
      case _ =>
    }
  }

  // ---- What the source computes ----

  /** The outcome of looking for a partner. */
  datatype Search = Found(k: nat) | Absent | Failed

  /** nxe_cedar_value_equals with `depth` frames already on the stack. */
  function Equal(a: Value, b: Value, depth: nat): Tri
    decreases a, 1
  {
    if depth > MAX_EQUALS_DEPTH then Fail
    else if a.ErrorV? || b.ErrorV? then Fail
    else
      match a
      case SetV(xs) =>
        if !b.SetV? || |xs| != |b.elts| then No
        else if |xs| > MAX_EQUALS_ELTS then Fail
        else MatchSet(xs, b.elts, {}, depth + 1)
      case RecordV(xs) =>
        if !b.RecordV? || |xs| != |b.attrs| then No
        else if |xs| > MAX_EQUALS_ELTS then Fail
        else MatchRecord(xs, b.attrs, {}, depth + 1)
      case _ => if LeafEqual(a, b) then Yes else No
  }

  /** Pairs each of xs with the first unused equal member of ys. */
  function MatchSet(xs: seq<Value>, ys: seq<Value>, used: set<nat>, depth: nat): Tri
    decreases xs, 0
  {
    if xs == [] then Yes
    else
      match FindMember(xs[0], ys, used, 0, depth)
      case Failed => Fail
      case Absent => No
      case Found(j) => MatchSet(xs[1..], ys, used + {j}, depth)
  }

  function FindMember(x: Value, ys: seq<Value>, used: set<nat>, j: nat, depth: nat): (r: Search)
    requires j <= |ys|
    ensures r.Found? ==> j <= r.k < |ys| && r.k !in used && Equal(x, ys[r.k], depth) == Yes
    ensures !r.Failed? ==>
      forall i :: j <= i < (if r.Found? then r.k else |ys|) && i !in used ==> Equal(x, ys[i], depth) == No
    decreases x, 2, |ys| - j
  {
    if j == |ys| then Absent
    else if j in used then FindMember(x, ys, used, j + 1, depth)
    else
      match Equal(x, ys[j], depth)
      case Fail => Failed
      case Yes => Found(j)
      case No => FindMember(x, ys, used, j + 1, depth)
  }

  /** Pairs each of xs with the first unused entry of that name, which must then be equal. */
  function MatchRecord(xs: seq<Attr>, ys: seq<Attr>, used: set<nat>, depth: nat): Tri
    decreases xs, 0
  {
    if xs == [] then Yes
    else
      var j := FindName(xs[0].name, ys, used, 0);
      if j == |ys| then No
      else
        match Equal(xs[0].value, ys[j].value, depth)
        case Fail => Fail
        case No => No
        case Yes => MatchRecord(xs[1..], ys, used + {j}, depth)
  }

  function FindName(name: string, ys: seq<Attr>, used: set<nat>, j: nat): (k: nat)
    requires j <= |ys|
    ensures j <= k <= |ys| && (k < |ys| ==> k !in used && ys[k].name == name)
    ensures forall i :: j <= i < k && i !in used ==> ys[i].name != name
    decreases |ys| - j
  {
    if j == |ys| || (j !in used && ys[j].name == name) then j else FindName(name, ys, used, j + 1)
  }

  // ---- Greedy matching is complete ----

  /** f sends every element of xs to an equal, unused element of ys, and no two to the same one. */
  ghost predicate Pairs(xs: seq<Value>, ys: seq<Value>, used: set<nat>, f: seq<nat>) {
    && |f| == |xs|
    && (forall i :: 0 <= i < |xs| ==> f[i] < |ys| && f[i] !in used && Same(xs[i], ys[f[i]]))
    && (forall i, j :: 0 <= i < j < |f| ==> f[i] != f[j])
  }

  ghost predicate Paired(xs: seq<Value>, ys: seq<Value>, used: set<nat>) {
    exists f :: Pairs(xs, ys, used, f)
  }

  /** Whatever partner the first element takes, the others can still be paired: partners can be swapped. */
  lemma Exchange(xs: seq<Value>, ys: seq<Value>, used: set<nat>, f: seq<nat>, j: nat) returns (f': seq<nat>)
    requires xs != [] && Pairs(xs, ys, used, f)
    requires j < |ys| && j !in used && Same(xs[0], ys[j])
    ensures Pairs(xs[1..], ys, used + {j}, f')
  {
    if k :| 1 <= k < |f| && f[k] == j {
      f' := f[1..][k - 1 := f[0]];
      Symmetric(xs[0], ys[j]);
      Transitive(xs[k], ys[j], xs[0]);
      Transitive(xs[k], xs[0], ys[f[0]]);
      forall i, m | 0 <= i < m < |f'| ensures f'[i] != f'[m] {
        assert f[i + 1] != f[m + 1] && f[0] != f[i + 1] && f[0] != f[m + 1];
      }
      forall i | 0 <= i < |f'| ensures f'[i] != j {
        assert i != k - 1 ==> f[i + 1] != f[k];
      }
    } else {
      f' := f[1..];
    }
  }

  function Below(n: nat): (r: set<nat>)
    ensures |r| == n && forall x: nat :: x in r <==> x < n
  {
    if n == 0 then {} else Below(n - 1) + {n - 1}
  }

  function Image(f: seq<nat>): (r: set<nat>)
    ensures forall x: nat :: x in r <==> x in f
    ensures (forall i, j :: 0 <= i < j < |f| ==> f[i] != f[j]) ==> |r| == |f|
  {
    if f == [] then {}
    else
      var (f', x) := (f[..|f| - 1], f[|f| - 1]);
      assert f == f' + [x];
      Image(f') + {x}
  }

  lemma SubsetOfSameSize(a: set<nat>, b: set<nat>)
    requires a <= b && |a| == |b|
    ensures a == b
  {
    assert |b - a| == 0;
  }

  function Place(f: seq<nat>, x: nat): (i: nat)
    requires x in f
    ensures i < |f| && f[i] == x
  {
    if f[0] == x then 0 else Place(f[1..], x) + 1
  }

  /** An injection of [0, n) into itself has an inverse. */
  lemma Invert(f: seq<nat>) returns (g: seq<nat>)
    requires forall i :: 0 <= i < |f| ==> f[i] < |f|
    requires forall i, j :: 0 <= i < j < |f| ==> f[i] != f[j]
    ensures Inverses(f, g, |f|)
  {
    hide Image, Below, Place;
    SubsetOfSameSize(Image(f), Below(|f|));
    assert forall j: nat :: j < |f| ==> j in Below(|f|) && j in f;
    g := seq(|f|, j requires 0 <= j < |f| => Place(f, j));
    forall i | 0 <= i < |f| ensures g[f[i]] == i {
      assert f[g[f[i]]] == f[i];
    }
  }

  lemma Bijection(a: Value, b: Value) returns (f: seq<nat>, g: seq<nat>)
    requires a.SetV? && Same(a, b)
    ensures b.SetV? && SetVia(a.elts, b.elts, f, g)
  {
    f, g :| SetVia(a.elts, b.elts, f, g);
  }

  lemma RecordBijection(a: Value, b: Value) returns (f: seq<nat>, g: seq<nat>)
    requires a.RecordV? && Same(a, b)
    ensures b.RecordV? && RecordVia(a.attrs, b.attrs, f, g)
  {
    f, g :| RecordVia(a.attrs, b.attrs, f, g);
  }

  lemma WholePairing(xs: seq<Value>, ys: seq<Value>)
    requires |xs| == |ys|
    ensures Paired(xs, ys, {}) <==> Same(SetV(xs), SetV(ys))
  {
    if f :| Pairs(xs, ys, {}, f) {
      var g := Invert(f);
      assert SetVia(xs, ys, f, g);
    }
    if Same(SetV(xs), SetV(ys)) {
      var f, g := Bijection(SetV(xs), SetV(ys));
      forall i, j | 0 <= i < j < |f| ensures f[i] != f[j] {
        assert g[f[i]] == i && g[f[j]] == j;
      }
      assert Pairs(xs, ys, {}, f);
    }
  }

  ghost predicate RecordPairs(xs: seq<Attr>, ys: seq<Attr>, used: set<nat>, f: seq<nat>) {
    && |f| == |xs|
    && (forall i :: 0 <= i < |xs| ==>
          f[i] < |ys| && f[i] !in used && xs[i].name == ys[f[i]].name && Same(xs[i].value, ys[f[i]].value))
    && (forall i, j :: 0 <= i < j < |f| ==> f[i] != f[j])
  }

  ghost predicate RecordPaired(xs: seq<Attr>, ys: seq<Attr>, used: set<nat>) {
    exists f :: RecordPairs(xs, ys, used, f)
  }

  lemma WholeRecordPairing(xs: seq<Attr>, ys: seq<Attr>)
    requires |xs| == |ys|
    ensures RecordPaired(xs, ys, {}) <==> Same(RecordV(xs), RecordV(ys))
  {
    if f :| RecordPairs(xs, ys, {}, f) {
      var g := Invert(f);
      assert RecordVia(xs, ys, f, g);
    }
    if Same(RecordV(xs), RecordV(ys)) {
      var f, g := RecordBijection(RecordV(xs), RecordV(ys));
      forall i, j | 0 <= i < j < |f| ensures f[i] != f[j] {
        assert g[f[i]] == i && g[f[j]] == j;
      }
      assert RecordPairs(xs, ys, {}, f);
    }
  }

  /** Unless it fails, nxe_cedar_value_equals decides the relation. */
  lemma {:induction false} EqualDecides(a: Value, b: Value, depth: nat)
    requires UniqueKeys(a) && UniqueKeys(b) && Equal(a, b, depth) != Fail
    ensures Equal(a, b, depth) == Yes <==> Same(a, b)
    decreases a, 1
  {
    match a {
      case SetV(xs) =>
        if b.SetV? && |xs| == |b.elts| {
          MatchSetDecides(xs, b.elts, {}, depth + 1);
          WholePairing(xs, b.elts);
        }
      case RecordV(xs) =>
        if b.RecordV? && |xs| == |b.attrs| {
          MatchRecordDecides(xs, b.attrs, {}, depth + 1);
          WholeRecordPairing(xs, b.attrs);
        }
      case _ =>
    }
  }

  lemma {:induction false} MatchSetDecides(xs: seq<Value>, ys: seq<Value>, used: set<nat>, depth: nat)
    requires forall i :: 0 <= i < |xs| ==> UniqueKeys(xs[i])
    requires forall i :: 0 <= i < |ys| ==> UniqueKeys(ys[i])
    requires MatchSet(xs, ys, used, depth) != Fail
    ensures MatchSet(xs, ys, used, depth) == Yes <==> Paired(xs, ys, used)
    decreases xs, 0
  {
    hide UniqueKeys, Same, Pairs, Paired;
    if xs == [] {
      NoneToPair(ys, used);
    } else {
      forall k | 0 <= k < |ys| && Equal(xs[0], ys[k], depth) != Fail
        ensures Equal(xs[0], ys[k], depth) == Yes <==> Same(xs[0], ys[k])
      {
        EqualDecides(xs[0], ys[k], depth);
      }
      var r := FindMember(xs[0], ys, used, 0, depth);
      if r.Found? {
        MatchSetDecides(xs[1..], ys, used + {r.k}, depth);
        AnyPartner(xs, ys, used, r.k);
      } else {
        NoPartner(xs, ys, used);
      }
    }
  }

  lemma NoneToPair(ys: seq<Value>, used: set<nat>)
    ensures Paired([], ys, used)
  {
    assert Pairs([], ys, used, []);
  }

  lemma AnyPartner(xs: seq<Value>, ys: seq<Value>, used: set<nat>, j: nat)
    requires xs != [] && j < |ys| && j !in used && Same(xs[0], ys[j])
    ensures Paired(xs, ys, used) <==> Paired(xs[1..], ys, used + {j})
  {
    hide Same;
    if f :| Pairs(xs, ys, used, f) {
      var f' := Exchange(xs, ys, used, f, j);
    }
    if f' :| Pairs(xs[1..], ys, used + {j}, f') {
      assert Pairs(xs, ys, used, [j] + f');
    }
  }

  lemma NoPartner(xs: seq<Value>, ys: seq<Value>, used: set<nat>)
    requires xs != [] && forall k :: 0 <= k < |ys| && k !in used ==> !Same(xs[0], ys[k])
    ensures !Paired(xs, ys, used)
  {
    hide Same;
  }

  lemma {:induction false} MatchRecordDecides(xs: seq<Attr>, ys: seq<Attr>, used: set<nat>, depth: nat)
    requires forall i :: 0 <= i < |xs| ==> UniqueKeys(xs[i].value)
    requires UniqueNames(ys) && forall i :: 0 <= i < |ys| ==> UniqueKeys(ys[i].value)
    requires MatchRecord(xs, ys, used, depth) != Fail
    ensures MatchRecord(xs, ys, used, depth) == Yes <==> RecordPaired(xs, ys, used)
    decreases xs, 0
  {
    hide UniqueKeys, Same, RecordPairs, RecordPaired;
    if xs == [] {
      NothingToPair(ys, used);
    } else {
      var j := FindName(xs[0].name, ys, used, 0);
      OnlyCandidate(xs, ys, used, j);
      if j < |ys| {
        EqualDecides(xs[0].value, ys[j].value, depth);
        if Equal(xs[0].value, ys[j].value, depth) == Yes {
          MatchRecordDecides(xs[1..], ys, used + {j}, depth);
        }
      }
    }
  }

  lemma NothingToPair(ys: seq<Attr>, used: set<nat>)
    ensures RecordPaired([], ys, used)
  {
    assert RecordPairs([], ys, used, []);
  }

  /** Names in ys are unique, so the first unused entry of a name is the only possible partner. */
  lemma OnlyCandidate(xs: seq<Attr>, ys: seq<Attr>, used: set<nat>, j: nat)
    requires xs != [] && UniqueNames(ys) && j == FindName(xs[0].name, ys, used, 0)
    ensures RecordPaired(xs, ys, used) <==>
      j < |ys| && Same(xs[0].value, ys[j].value) && RecordPaired(xs[1..], ys, used + {j})
  {
    hide Same;
    if f :| RecordPairs(xs, ys, used, f) {
      Unpaired(xs, ys, used, j, f);
      assert RecordPaired(xs[1..], ys, used + {j});
    }
    if j < |ys| && Same(xs[0].value, ys[j].value) {
      if f' :| RecordPairs(xs[1..], ys, used + {j}, f') {
        PairedOnce(xs, ys, used, j, f');
        assert RecordPaired(xs, ys, used);
      }
    }
  }

  lemma Unpaired(xs: seq<Attr>, ys: seq<Attr>, used: set<nat>, j: nat, f: seq<nat>)
    requires xs != [] && UniqueNames(ys) && j == FindName(xs[0].name, ys, used, 0) && RecordPairs(xs, ys, used, f)
    ensures j < |ys| && Same(xs[0].value, ys[j].value) && RecordPairs(xs[1..], ys, used + {j}, f[1..])
  {
    hide Same, FindName;
    assert f[0] == j;
  }

  lemma PairedOnce(xs: seq<Attr>, ys: seq<Attr>, used: set<nat>, j: nat, f: seq<nat>)
    requires xs != [] && j < |ys| && j !in used && ys[j].name == xs[0].name && Same(xs[0].value, ys[j].value)
    requires RecordPairs(xs[1..], ys, used + {j}, f)
    ensures RecordPairs(xs, ys, used, [j] + f)
  {
    hide Same;
  }

  // ---- When it fails ----

  /** Comparing v with `depth` frames on the stack meets no limit and no error at any node of v. */
  predicate Shallow(v: Value, depth: nat) {
    && depth <= 32
    && match v
       case ErrorV => false
       case SetV(elts) => |elts| <= 1024 && forall i :: 0 <= i < |elts| ==> Shallow(elts[i], depth + 1)
       case RecordV(attrs) =>
         |attrs| <= 1024 && forall i :: 0 <= i < |attrs| ==> Shallow(attrs[i].value, depth + 1)
       case _ => true
  }

  /** No failure against any value without errors, however large that one is. */
  lemma {:induction false} NeverFails(a: Value, b: Value, depth: nat)
    requires Shallow(a, depth) && ErrorFree(b)
    ensures Equal(a, b, depth) != Fail
    decreases a, 1
  {
    match a {
      case SetV(xs) =>
        if b.SetV? && |xs| == |b.elts| {
          MatchSetNeverFails(xs, b.elts, {}, depth + 1);
        }
      case RecordV(xs) =>
        if b.RecordV? && |xs| == |b.attrs| {
          MatchRecordNeverFails(xs, b.attrs, {}, depth + 1);
        }
      case _ =>
    }
  }

  lemma {:induction false} MatchSetNeverFails(xs: seq<Value>, ys: seq<Value>, used: set<nat>, depth: nat)
    requires forall i :: 0 <= i < |xs| ==> Shallow(xs[i], depth)
    requires forall i :: 0 <= i < |ys| ==> ErrorFree(ys[i])
    ensures MatchSet(xs, ys, used, depth) != Fail
    decreases xs, 0
  {
    if xs != [] {
      forall k | 0 <= k < |ys| ensures Equal(xs[0], ys[k], depth) != Fail {
        NeverFails(xs[0], ys[k], depth);
      }
      FindMemberNeverFails(xs[0], ys, used, 0, depth);
      var r := FindMember(xs[0], ys, used, 0, depth);
      if r.Found? {
        MatchSetNeverFails(xs[1..], ys, used + {r.k}, depth);
      }
    }
  }

  lemma {:induction false} FindMemberNeverFails(x: Value, ys: seq<Value>, used: set<nat>, j: nat, depth: nat)
    requires j <= |ys| && forall k :: 0 <= k < |ys| ==> Equal(x, ys[k], depth) != Fail
    ensures !FindMember(x, ys, used, j, depth).Failed?
    decreases |ys| - j
  {
    if j < |ys| {
      FindMemberNeverFails(x, ys, used, j + 1, depth);
    }
  }

  lemma {:induction false} MatchRecordNeverFails(xs: seq<Attr>, ys: seq<Attr>, used: set<nat>, depth: nat)
    requires forall i :: 0 <= i < |xs| ==> Shallow(xs[i].value, depth)
    requires forall i :: 0 <= i < |ys| ==> ErrorFree(ys[i].value)
    ensures MatchRecord(xs, ys, used, depth) != Fail
    decreases xs, 0
  {
    if xs != [] {
      var j := FindName(xs[0].name, ys, used, 0);
      if j < |ys| {
        NeverFails(xs[0].value, ys[j].value, depth);
        MatchRecordNeverFails(xs[1..], ys, used + {j}, depth);
      }
    }
  }

  /** Within the limits the answer is the relation itself. */
  lemma EqualIsSame(a: Value, b: Value, depth: nat)
    requires UniqueKeys(a) && UniqueKeys(b) && Shallow(a, depth) && ErrorFree(b)
    ensures Equal(a, b, depth) == if Same(a, b) then Yes else No
  {
    NeverFails(a, b, depth);
    EqualDecides(a, b, depth);
  }

  /** w is v with something in the place of each of its errors. */
  predicate Mends(v: Value, w: Value) {
    match v
    case ErrorV => true
    case SetV(xs) => w.SetV? && |w.elts| == |xs| && forall i :: 0 <= i < |xs| ==> Mends(xs[i], w.elts[i])
    case RecordV(xs) =>
      w.RecordV? && |w.attrs| == |xs|
      && forall i :: 0 <= i < |xs| ==> xs[i].name == w.attrs[i].name && Mends(xs[i].value, w.attrs[i].value)
    case _ => v == w
  }

  /** Compared with its own copy, a value pairs up in order, or fails exactly if it is not shallow. */
  lemma {:induction false} MendedAnswer(v: Value, w: Value, depth: nat)
    requires Mends(v, w)
    ensures Equal(v, w, depth) == if Shallow(v, depth) then Yes else Fail
    decreases v, 1
  {
    hide MatchSet, MatchRecord, Below;
    if depth <= MAX_EQUALS_DEPTH {
      match v {
        case SetV(xs) =>
          MendedSet(xs, w.elts, 0, depth + 1);
          ContainerAnswer(v, w, depth);
        case RecordV(xs) =>
          MendedRecord(xs, w.attrs, 0, depth + 1);
          ContainerAnswer(v, w, depth);
        case _ =>
      }
    }
  }

  lemma ContainerAnswer(v: Value, w: Value, depth: nat)
    requires depth <= MAX_EQUALS_DEPTH
    ensures v.SetV? && w.SetV? && |v.elts| == |w.elts| ==>
      (Equal(v, w, depth) ==
       if |v.elts| > MAX_EQUALS_ELTS then Fail else MatchSet(v.elts[0..], w.elts, Below(0), depth + 1))
    ensures v.RecordV? && w.RecordV? && |v.attrs| == |w.attrs| ==>
      (Equal(v, w, depth) ==
       if |v.attrs| > MAX_EQUALS_ELTS then Fail else MatchRecord(v.attrs[0..], w.attrs, Below(0), depth + 1))
  {
    hide MatchSet, MatchRecord;
    assert v.SetV? ==> v.elts[0..] == v.elts;
    assert v.RecordV? ==> v.attrs[0..] == v.attrs;
  }

  lemma {:induction false} MendedSet(xs: seq<Value>, ys: seq<Value>, i: nat, depth: nat)
    requires i <= |xs| == |ys| && forall j :: 0 <= j < |xs| ==> Mends(xs[j], ys[j])
    ensures MatchSet(xs[i..], ys, Below(i), depth) ==
      if forall j :: i <= j < |xs| ==> Shallow(xs[j], depth) then Yes else Fail
    decreases xs, 0, |xs| - i
  {
    hide Mends, Shallow, Equal, Below, FindMember;
    if i < |xs| {
      hide MatchSet;
      MendedAnswer(xs[i], ys[i], depth);
      NextMember(xs, ys, i, depth);
      MendedSet(xs, ys, i + 1, depth);
    }
  }

  lemma NextMember(xs: seq<Value>, ys: seq<Value>, i: nat, depth: nat)
    requires i < |xs| == |ys| && Equal(xs[i], ys[i], depth) != No
    ensures MatchSet(xs[i..], ys, Below(i), depth) ==
      if Equal(xs[i], ys[i], depth) == Fail then Fail else MatchSet(xs[i + 1..], ys, Below(i + 1), depth)
  {
    hide Equal, FindMember;
    FirstFree(xs[i], ys, i, 0, depth);
    assert xs[i..][0] == xs[i] && xs[i..][1..] == xs[i + 1..];
  }

  /** With the first i members in use, member i is tried first. */
  lemma {:induction false} FirstFree(x: Value, ys: seq<Value>, i: nat, j: nat, depth: nat)
    requires j <= i < |ys|
    ensures var r := FindMember(x, ys, Below(i), j, depth);
      && (Equal(x, ys[i], depth) == Yes ==> r == Found(i))
      && (Equal(x, ys[i], depth) == Fail ==> r == Failed)
    decreases i - j
  {
    hide Equal, Below;
    if j < i {
      FirstFree(x, ys, i, j + 1, depth);
    }
  }

  lemma {:induction false} MendedRecord(xs: seq<Attr>, ys: seq<Attr>, i: nat, depth: nat)
    requires i <= |xs| == |ys|
    requires forall j :: 0 <= j < |xs| ==> xs[j].name == ys[j].name && Mends(xs[j].value, ys[j].value)
    ensures MatchRecord(xs[i..], ys, Below(i), depth) ==
      if forall j :: i <= j < |xs| ==> Shallow(xs[j].value, depth) then Yes else Fail
    decreases xs, 0, |xs| - i
  {
    hide Mends, Shallow, Equal, FindName, Below;
    if i < |xs| {
      hide MatchRecord;
      MendedAnswer(xs[i].value, ys[i].value, depth);
      NextEntry(xs, ys, i, depth);
      MendedRecord(xs, ys, i + 1, depth);
    }
  }

  lemma NextEntry(xs: seq<Attr>, ys: seq<Attr>, i: nat, depth: nat)
    requires i < |xs| == |ys| && xs[i].name == ys[i].name && Equal(xs[i].value, ys[i].value, depth) != No
    ensures MatchRecord(xs[i..], ys, Below(i), depth) ==
      if Equal(xs[i].value, ys[i].value, depth) == Fail then Fail else MatchRecord(xs[i + 1..], ys, Below(i + 1), depth)
  {
    hide Equal, FindName, Below;
    FirstFreeName(xs[i].name, ys, i);
    assert xs[i..][0] == xs[i] && xs[i..][1..] == xs[i + 1..];
  }

  lemma FirstFreeName(name: string, ys: seq<Attr>, i: nat)
    requires i < |ys| && ys[i].name == name
    ensures FindName(name, ys, Below(i), 0) == i && Below(i) + {i} == Below(i + 1)
  {
    hide FindName;
  }

  lemma {:induction false} MendsItself(v: Value)
    ensures Mends(v, v)
  {
    match v {
      case SetV(xs) =>
        forall i | 0 <= i < |xs| ensures Mends(xs[i], xs[i]) {
          MendsItself(xs[i]);
        }
      case RecordV(xs) =>
        forall i | 0 <= i < |xs| ensures Mends(xs[i].value, xs[i].value) {
          MendsItself(xs[i].value);
        }
      case _ =>
    }
  }

  /** `v == v`: true, or an error exactly if v is not shallow. */
  lemma SelfAnswer(v: Value, depth: nat)
    ensures Equal(v, v, depth) == if Shallow(v, depth) then Yes else Fail
  {
    MendsItself(v);
    MendedAnswer(v, v, depth);
  }

  /** v with `false` in the place of each error. */
  function Mended(v: Value): (w: Value)
    ensures ErrorFree(w) && Mends(v, w)
  {
    match v
    case ErrorV => BoolV(false)
    case SetV(xs) => SetV(seq(|xs|, i requires 0 <= i < |xs| => Mended(xs[i])))
    case RecordV(xs) => RecordV(seq(|xs|, i requires 0 <= i < |xs| => Attr(xs[i].name, Mended(xs[i].value))))
    case _ => v
  }

  /** A value can be compared with everything exactly if it is shallow. */
  lemma ComparableExactly(a: Value, depth: nat)
    ensures (forall b: Value :: ErrorFree(b) ==> Equal(a, b, depth) != Fail) <==> Shallow(a, depth)
  {
    hide Equal, Shallow, ErrorFree, Mended;
    if Shallow(a, depth) {
      forall b: Value | ErrorFree(b) ensures Equal(a, b, depth) != Fail {
        NeverFails(a, b, depth);
      }
    } else {
      MendedAnswer(a, Mended(a), depth);
    }
  }

  /** Bounded height and size are enough, for values without errors. */
  lemma {:induction false} ShallowEnough(v: Value, depth: nat, h: nat)
    requires ErrorFree(v) && AtMost(v, MAX_EQUALS_ELTS) && HeightAtMost(v, h) && depth + h <= MAX_EQUALS_DEPTH
    ensures Shallow(v, depth)
    decreases v
  {
    match v {
      case SetV(xs) =>
        forall i | 0 <= i < |xs| ensures Shallow(xs[i], depth + 1) {
          ShallowEnough(xs[i], depth + 1, h - 1);
        }
      case RecordV(xs) =>
        forall i | 0 <= i < |xs| ensures Shallow(xs[i].value, depth + 1) {
          ShallowEnough(xs[i].value, depth + 1, h - 1);
        }
      case _ =>
    }
  }

  /** The size limit is necessary at every depth. */
  lemma {:induction false} ShallowIsSmall(v: Value, depth: nat)
    requires Shallow(v, depth)
    ensures AtMost(v, MAX_EQUALS_ELTS) && ErrorFree(v)
    decreases v
  {
    match v {
      case SetV(xs) =>
        forall i | 0 <= i < |xs| ensures AtMost(xs[i], MAX_EQUALS_ELTS) && ErrorFree(xs[i]) {
          ShallowIsSmall(xs[i], depth + 1);
        }
      case RecordV(xs) =>
        forall i | 0 <= i < |xs| ensures AtMost(xs[i].value, MAX_EQUALS_ELTS) && ErrorFree(xs[i].value) {
          ShallowIsSmall(xs[i].value, depth + 1);
        }
      case _ =>
    }
  }

  // ---- What sameness of records and sets amounts to ----

  lemma {:induction false} FindAttrUnique(attrs: seq<Attr>, i: nat)
    requires UniqueNames(attrs) && i < |attrs|
    ensures FindAttr(attrs, attrs[i].name) == Some(attrs[i].value)
    decreases |attrs|
  {
    if i > 0 {
      FindAttrUnique(attrs[1..], i - 1);
    }
  }

  lemma IndexOf(attrs: seq<Attr>, name: string) returns (i: nat)
    requires FindAttr(attrs, name).Some?
    ensures i < |attrs| && attrs[i].name == name && FindAttr(attrs, name) == Some(attrs[i].value)
  {
    i :| i < |attrs| && attrs[i] == Attr(name, FindAttr(attrs, name).value);
  }

  ghost predicate SameAt(xs: seq<Attr>, ys: seq<Attr>, name: string) {
    var x, y := FindAttr(xs, name), FindAttr(ys, name);
    x.Some? == y.Some? && (x.Some? ==> Same(x.value, y.value))
  }

  /** Where each entry of xs is in ys. */
  lemma Places(xs: seq<Attr>, ys: seq<Attr>) returns (f: seq<nat>)
    requires UniqueNames(xs) && forall i :: 0 <= i < |xs| ==> FindAttr(ys, xs[i].name).Some?
    ensures |f| == |xs|
    ensures forall i :: 0 <= i < |xs| ==>
      f[i] < |ys| && ys[f[i]].name == xs[i].name && FindAttr(ys, xs[i].name) == Some(ys[f[i]].value)
    decreases |xs|
  {
    f := [];
    if xs != [] {
      var xs' := xs[..|xs| - 1];
      var f' := Places(xs', ys);
      var k := IndexOf(ys, xs[|xs| - 1].name);
      f := f' + [k];
    }
  }

  lemma SameRecordsAgree(xs: seq<Attr>, ys: seq<Attr>, f: seq<nat>, g: seq<nat>, name: string)
    requires UniqueNames(xs) && UniqueNames(ys) && RecordVia(xs, ys, f, g)
    ensures SameAt(xs, ys, name)
  {
    hide FindAttr, Same;
    if FindAttr(xs, name).Some? {
      var i := IndexOf(xs, name);
      FindAttrUnique(ys, f[i]);
    }
    if FindAttr(ys, name).Some? {
      var j := IndexOf(ys, name);
      FindAttrUnique(xs, g[j]);
    }
  }

  lemma AgreeingRecordsAreSame(xs: seq<Attr>, ys: seq<Attr>) returns (f: seq<nat>, g: seq<nat>)
    requires UniqueNames(xs) && UniqueNames(ys) && forall name: string :: SameAt(xs, ys, name)
    ensures RecordVia(xs, ys, f, g)
  {
    hide FindAttr, Same;
    forall i | 0 <= i < |xs| ensures FindAttr(xs, xs[i].name) == Some(xs[i].value) && SameAt(xs, ys, xs[i].name) {
      FindAttrUnique(xs, i);
    }
    forall j | 0 <= j < |ys| ensures FindAttr(ys, ys[j].name) == Some(ys[j].value) && SameAt(xs, ys, ys[j].name) {
      FindAttrUnique(ys, j);
    }
    f := Places(xs, ys);
    g := Places(ys, xs);
    OneToOne(xs, ys, f, g);
  }

  lemma OneToOne(xs: seq<Attr>, ys: seq<Attr>, f: seq<nat>, g: seq<nat>)
    requires UniqueNames(xs) && UniqueNames(ys) && |f| == |xs| && |g| == |ys|
    requires forall i :: 0 <= i < |xs| ==> f[i] < |ys| && ys[f[i]].name == xs[i].name
    requires forall j :: 0 <= j < |ys| ==> g[j] < |xs| && xs[g[j]].name == ys[j].name
    ensures |xs| == |ys| && Inverses(f, g, |xs|)
  {
    assert forall i :: 0 <= i < |xs| ==> g[f[i]] == i;
    assert forall j :: 0 <= j < |ys| ==> f[g[j]] == j;
    Fits(f, |ys|);
    Fits(g, |xs|);
  }

  /** An injection does not shrink. */
  lemma Fits(f: seq<nat>, n: nat)
    requires forall i :: 0 <= i < |f| ==> f[i] < n
    requires forall i, j :: 0 <= i < j < |f| ==> f[i] != f[j]
    ensures |f| <= n
  {
    assert Image(f) <= Below(n);
    SubsetSize(Image(f), Below(n));
  }

  lemma SubsetSize(a: set<nat>, b: set<nat>)
    requires a <= b
    ensures |a| <= |b|
  {
    assert |b| == |a| + |b - a|;
  }

  /** Two records are the same exactly when they agree as maps from names to values. */
  lemma RecordsAreMaps(xs: seq<Attr>, ys: seq<Attr>)
    requires UniqueNames(xs) && UniqueNames(ys)
    ensures Same(RecordV(xs), RecordV(ys)) <==> forall name: string :: SameAt(xs, ys, name)
  {
    hide SameAt, RecordVia;
    if f, g :| RecordVia(xs, ys, f, g) {
      forall name: string ensures SameAt(xs, ys, name) {
        SameRecordsAgree(xs, ys, f, g, name);
      }
    }
    if forall name: string :: SameAt(xs, ys, name) {
      var f, g := AgreeingRecordsAreSame(xs, ys);
    }
  }

  // ---- The source's loops ----

  method ValueEquals(a: Value, b: Value, depth: nat) returns (r: Tri)
    ensures r == Equal(a, b, depth)
    decreases a, 1
  {
    if depth > MAX_EQUALS_DEPTH || a.ErrorV? || b.ErrorV? {
      return Fail;
    }
    match a {
      case SetV(xs) =>
        if !b.SetV? || |xs| != |b.elts| {
          return No;
        }
        if |xs| > MAX_EQUALS_ELTS {
          return Fail;
        }
        r := SetEquals(xs, b.elts, depth + 1);
      case RecordV(xs) =>
        if !b.RecordV? || |xs| != |b.attrs| {
          return No;
        }
        if |xs| > MAX_EQUALS_ELTS {
          return Fail;
        }
        r := RecordEquals(xs, b.attrs, depth + 1);
      case _ =>
        r := if LeafEqual(a, b) then Yes else No;
    }
  }

  method SetEquals(xs: seq<Value>, ys: seq<Value>, depth: nat) returns (r: Tri)
    requires |xs| == |ys| <= MAX_EQUALS_ELTS
    ensures r == MatchSet(xs, ys, {}, depth)
    decreases xs, 0
  {
    var matched := new Word[BITMAP_WORDS](_ => 0);
    var i := 0;
    NoMarks(matched[..]);
    assert xs[0..] == xs;
    while i < |xs|
      invariant 0 <= i <= |xs|
      invariant MatchSet(xs[i..], ys, Marks(matched[..]), depth) == MatchSet(xs, ys, {}, depth)
    {
      var found := false;
      var j := 0;
      ghost var used := Marks(matched[..]);
      assert xs[i..][0] == xs[i] && xs[i..][1..] == xs[i + 1..];
      while j < |ys| && !found
        invariant 0 <= j <= |ys|
        invariant !found ==> Marks(matched[..]) == used
        invariant !found ==> FindMember(xs[i], ys, used, j, depth) == FindMember(xs[i], ys, used, 0, depth)
        invariant found ==> j < |ys| && FindMember(xs[i], ys, used, 0, depth) == Found(j)
        invariant found ==> Marks(matched[..]) == used + {j}
        decreases |ys| - j, !found
      {
        if !IsMarked(matched[..], j) {
          var e := ValueEquals(xs[i], ys[j], depth);
          if e == Fail {
            return Fail;
          }
          if e == Yes {
            Mark(matched, j);
            found := true;
            continue;
          }
        }
        j := j + 1;
      }
      if !found {
        return No;
      }
      i := i + 1;
    }
    return Yes;
  }

  method RecordEquals(xs: seq<Attr>, ys: seq<Attr>, depth: nat) returns (r: Tri)
    requires |xs| == |ys| <= MAX_EQUALS_ELTS
    ensures r == MatchRecord(xs, ys, {}, depth)
    decreases xs, 0
  {
    var matched := new Word[BITMAP_WORDS](_ => 0);
    var i := 0;
    NoMarks(matched[..]);
    assert xs[0..] == xs;
    while i < |xs|
      invariant 0 <= i <= |xs|
      invariant MatchRecord(xs[i..], ys, Marks(matched[..]), depth) == MatchRecord(xs, ys, {}, depth)
    {
      ghost var used := Marks(matched[..]);
      assert xs[i..][0] == xs[i] && xs[i..][1..] == xs[i + 1..];
      var j := 0;
      while j < |ys| && (IsMarked(matched[..], j) || ys[j].name != xs[i].name)
        invariant 0 <= j <= |ys|
        invariant FindName(xs[i].name, ys, used, j) == FindName(xs[i].name, ys, used, 0)
      {
        j := j + 1;
      }
      if j == |ys| {
        return No;
      }
      var e := ValueEquals(xs[i].value, ys[j].value, depth);
      if e != Yes {
        return e;
      }
      Mark(matched, j);
      i := i + 1;
    }
    return Yes;
  }
}
