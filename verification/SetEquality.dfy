/**
 * How the equality of sets that nxe_cedar_value_equals decides relates to the equality of Cedar sets,
 * which have no duplicates: it counts how often each member occurs.
 */
module SetEquality {
  import opened Values
  import opened Equality

  // ---- Multiplicity ----

  /** How many members of xs are the same as v. */
  ghost function Count(v: Value, xs: seq<Value>): nat {
    if xs == [] then 0 else (if Same(v, xs[0]) then 1 else 0) + Count(v, xs[1..])
  }

  /** How many unused members of ys, from position j on, are the same as v. */
  ghost function CountFree(v: Value, ys: seq<Value>, used: set<nat>, j: nat): nat
    requires j <= |ys|
    decreases |ys| - j
  {
    if j == |ys| then 0
    else (if j !in used && Same(v, ys[j]) then 1 else 0) + CountFree(v, ys, used, j + 1)
  }

  lemma {:induction false} CountFreeAll(v: Value, ys: seq<Value>, j: nat)
    requires j <= |ys|
    ensures CountFree(v, ys, {}, j) == Count(v, ys[j..])
    decreases |ys| - j
  {
    hide Same;
    if j < |ys| {
      CountFreeAll(v, ys, j + 1);
      assert ys[j..][0] == ys[j] && ys[j..][1..] == ys[j + 1..];
    }
  }

  lemma {:induction false} UseOne(v: Value, ys: seq<Value>, used: set<nat>, k: nat, j: nat)
    requires j <= |ys| && k < |ys| && k !in used
    ensures CountFree(v, ys, used, j) ==
      CountFree(v, ys, used + {k}, j) + if j <= k && Same(v, ys[k]) then 1 else 0
    decreases |ys| - j
  {
    hide Same;
    if j < |ys| {
      UseOne(v, ys, used, k, j + 1);
    }
  }

  lemma {:induction false} NoneFree(v: Value, ys: seq<Value>, used: set<nat>, j: nat)
    requires j <= |ys| && forall k :: j <= k < |ys| && k !in used ==> !Same(v, ys[k])
    ensures CountFree(v, ys, used, j) == 0
    decreases |ys| - j
  {
    hide Same;
    if j < |ys| {
      NoneFree(v, ys, used, j + 1);
    }
  }

  lemma SameClass(v: Value, x: Value, y: Value)
    requires Same(x, y)
    ensures Same(v, x) == Same(v, y)
  {
    hide Same;
    if Same(v, x) {
      Transitive(v, x, y);
    }
    if Same(v, y) {
      Symmetric(x, y);
      Transitive(v, y, x);
    }
  }

  ghost predicate Covered(xs: seq<Value>, ys: seq<Value>, used: set<nat>) {
    forall v: Value :: Count(v, xs) <= CountFree(v, ys, used, 0)
  }

  /** All of xs can be paired with unused members of ys exactly if no member occurs too often. */
  lemma {:induction false} PairedIfCovered(xs: seq<Value>, ys: seq<Value>, used: set<nat>)
    ensures Paired(xs, ys, used) <==> Covered(xs, ys, used)
    decreases |xs|
  {
    hide Same, Paired;
    if xs == [] {
      NoneToPair(ys, used);
    } else if k: nat :| k < |ys| && k !in used && Same(xs[0], ys[k]) {
      AnyPartner(xs, ys, used, k);
      PairedIfCovered(xs[1..], ys, used + {k});
      CoveredStep(xs, ys, used, k);
    } else {
      NoPartner(xs, ys, used);
      NoneFree(xs[0], ys, used, 0);
      Reflexive(xs[0]);
      assert Count(xs[0], xs) > CountFree(xs[0], ys, used, 0);
    }
  }

  lemma CoveredStep(xs: seq<Value>, ys: seq<Value>, used: set<nat>, k: nat)
    requires xs != [] && k < |ys| && k !in used && Same(xs[0], ys[k])
    ensures Covered(xs, ys, used) <==> Covered(xs[1..], ys, used + {k})
  {
    hide Same, Count, CountFree;
    forall v: Value
      ensures Count(v, xs) <= CountFree(v, ys, used, 0) <==> Count(v, xs[1..]) <= CountFree(v, ys, used + {k}, 0)
    {
      SameClass(v, xs[0], ys[k]);
      UseOne(v, ys, used, k, 0);
      CountFirst(v, xs);
    }
  }

  lemma CountFirst(v: Value, xs: seq<Value>)
    requires xs != []
    ensures Count(v, xs) == Count(v, xs[1..]) + if Same(v, xs[0]) then 1 else 0
  {
  }

  lemma Injects(xs: seq<Value>, ys: seq<Value>)
    requires Paired(xs, ys, {})
    ensures |xs| <= |ys|
  {
    hide Same;
    var f :| Pairs(xs, ys, {}, f);
    Fits(f, |ys|);
  }

  /** Every value occurs equally often in both. */
  ghost predicate SameCounts(xs: seq<Value>, ys: seq<Value>) {
    forall v: Value :: Count(v, xs) == Count(v, ys)
  }

  /** Two sets are the same exactly if they are equal as multisets. */
  lemma SetsAreMultisets(xs: seq<Value>, ys: seq<Value>)
    ensures Same(SetV(xs), SetV(ys)) <==> SameCounts(xs, ys)
  {
    hide Same, CountFree;
    if Same(SetV(xs), SetV(ys)) {
      Symmetric(SetV(xs), SetV(ys));
      forall v: Value ensures Count(v, xs) == Count(v, ys) {
        NoMoreOften(v, xs, ys);
        NoMoreOften(v, ys, xs);
      }
    } else if SameCounts(xs, ys) {
      Often(xs, ys);
      Often(ys, xs);
      Injects(xs, ys);
      Injects(ys, xs);
      WholePairing(xs, ys);
    }
  }

  lemma NoMoreOften(v: Value, xs: seq<Value>, ys: seq<Value>)
    requires Same(SetV(xs), SetV(ys))
    ensures Count(v, xs) <= Count(v, ys)
  {
    hide Same, Count, CountFree, Paired;
    SameLength(xs, ys);
    WholePairing(xs, ys);
    PairedIfCovered(xs, ys, {});
    CountFreeAll(v, ys, 0);
    assert ys[0..] == ys;
    assert Count(v, xs) <= CountFree(v, ys, {}, 0);
  }

  lemma Often(xs: seq<Value>, ys: seq<Value>)
    requires SameCounts(xs, ys)
    ensures Paired(xs, ys, {})
  {
    hide Same, Count, CountFree, Paired;
    forall v: Value ensures Count(v, xs) <= CountFree(v, ys, {}, 0) {
      CountFreeAll(v, ys, 0);
      assert ys[0..] == ys;
    }
    PairedIfCovered(xs, ys, {});
  }

  lemma SameLength(xs: seq<Value>, ys: seq<Value>)
    requires Same(SetV(xs), SetV(ys))
    ensures |xs| == |ys|
  {
    var f, g := Bijection(SetV(xs), SetV(ys));
  }

  /** The answer for sets within the limits: equality as multisets. */
  lemma AnswersMultisets(xs: seq<Value>, ys: seq<Value>, depth: nat)
    requires UniqueKeys(SetV(xs)) && UniqueKeys(SetV(ys)) && Shallow(SetV(xs), depth) && ErrorFree(SetV(ys))
    ensures Equal(SetV(xs), SetV(ys), depth) == if SameCounts(xs, ys) then Yes else No
  {
    hide Same, Equal, SameCounts, UniqueKeys, Shallow, ErrorFree;
    EqualIsSame(SetV(xs), SetV(ys), depth);
    SetsAreMultisets(xs, ys);
  }

  // ---- Equality of sets ----

  /** v occurs in xs. */
  ghost predicate Occurs(v: Value, xs: seq<Value>) {
    exists i :: 0 <= i < |xs| && Same(v, xs[i])
  }

  /** Equality of Cedar sets: every member of one occurs in the other. */
  ghost predicate SetEqual(xs: seq<Value>, ys: seq<Value>) {
    && (forall i :: 0 <= i < |xs| ==> Occurs(xs[i], ys))
    && (forall j :: 0 <= j < |ys| ==> Occurs(ys[j], xs))
  }

  /** No member occurs twice. */
  ghost predicate Distinct(xs: seq<Value>) {
    forall i, j :: 0 <= i < j < |xs| ==> !Same(xs[i], xs[j])
  }

  lemma SameIsSetEqual(xs: seq<Value>, ys: seq<Value>)
    requires Same(SetV(xs), SetV(ys))
    ensures SetEqual(xs, ys)
  {
    Symmetric(SetV(xs), SetV(ys));
    IncludedIfSame(xs, ys);
    IncludedIfSame(ys, xs);
  }

  lemma IncludedIfSame(xs: seq<Value>, ys: seq<Value>)
    requires Same(SetV(xs), SetV(ys))
    ensures forall i :: 0 <= i < |xs| ==> Occurs(xs[i], ys)
  {
    var f, g := Bijection(SetV(xs), SetV(ys));
    hide Same;
    forall i | 0 <= i < |xs| ensures Occurs(xs[i], ys) {
      assert Same(xs[i], ys[f[i]]);
    }
  }

  /** Where the members of xs occur in ys: in different places if they are distinct. */
  lemma {:induction false} Occurrences(xs: seq<Value>, ys: seq<Value>) returns (f: seq<nat>)
    requires forall i :: 0 <= i < |xs| ==> Occurs(xs[i], ys)
    ensures |f| == |xs| && forall i :: 0 <= i < |xs| ==> f[i] < |ys| && Same(xs[i], ys[f[i]])
  {
    hide Same;
    f := [];
    if xs != [] {
      var xs', x := xs[..|xs| - 1], xs[|xs| - 1];
      assert Occurs(x, ys) && forall i :: 0 <= i < |xs'| ==> xs'[i] == xs[i];
      var f' := Occurrences(xs', ys);
      var k: nat :| k < |ys| && Same(x, ys[k]);
      f := f' + [k];
    }
  }

  lemma DistinctPairs(xs: seq<Value>, ys: seq<Value>) returns (f: seq<nat>)
    requires Distinct(xs) && forall i :: 0 <= i < |xs| ==> Occurs(xs[i], ys)
    ensures Pairs(xs, ys, {}, f)
  {
    hide Same;
    f := Occurrences(xs, ys);
    forall i, j | 0 <= i < j < |f| ensures f[i] != f[j] {
      if f[i] == f[j] {
        Symmetric(xs[j], ys[f[j]]);
        Transitive(xs[i], ys[f[i]], xs[j]);
      }
    }
  }

  /** Equal as sets, one of them without duplicates: then only the lengths matter. */
  lemma EqualByLength(xs: seq<Value>, ys: seq<Value>)
    requires SetEqual(xs, ys) && Distinct(xs)
    ensures |xs| <= |ys| && (Same(SetV(xs), SetV(ys)) <==> |xs| == |ys|)
  {
    hide Same, Pairs, Occurs;
    var f := DistinctPairs(xs, ys);
    Injects(xs, ys);
    if |xs| == |ys| {
      WholePairing(xs, ys);
    } else if Same(SetV(xs), SetV(ys)) {
      SameLength(xs, ys);
    }
  }

  /** The members of xs that do not occur again behind themselves. */
  ghost function Deduplicated(xs: seq<Value>): (r: seq<Value>)
    ensures |r| <= |xs| && Distinct(r)
    ensures forall v: Value :: Occurs(v, r) <==> Occurs(v, xs)
  {
    if xs == [] then []
    else
      var r := Deduplicated(xs[1..]);
      DeduplicatedStep(xs, r);
      if Occurs(xs[0], r) then r else [xs[0]] + r
  }

  lemma DeduplicatedStep(xs: seq<Value>, r: seq<Value>)
    requires xs != [] && Distinct(r) && forall v: Value :: Occurs(v, r) <==> Occurs(v, xs[1..])
    ensures var r' := if Occurs(xs[0], r) then r else [xs[0]] + r;
      Distinct(r') && forall v: Value :: Occurs(v, r') <==> Occurs(v, xs)
  {
    hide Same, Occurs;
    forall v: Value
      ensures Occurs(v, xs) <==> Same(v, xs[0]) || Occurs(v, r)
      ensures Occurs(v, [xs[0]] + r) <==> Same(v, xs[0]) || Occurs(v, r)
    {
      OccursFirst(v, xs);
      OccursFirst(v, [xs[0]] + r);
      assert ([xs[0]] + r)[1..] == r;
    }
    if Occurs(xs[0], r) {
      forall v: Value | Same(v, xs[0]) ensures Occurs(v, r) {
        OccursAlso(v, xs[0], r);
      }
    } else {
      forall j | 0 <= j < |r| ensures !Same(xs[0], r[j]) {
        if Same(xs[0], r[j]) {
          OccursAt(xs[0], r, j);
        }
      }
    }
  }

  lemma OccursFirst(v: Value, xs: seq<Value>)
    requires xs != []
    ensures Occurs(v, xs) <==> Same(v, xs[0]) || Occurs(v, xs[1..])
  {
    hide Same;
    if Occurs(v, xs[1..]) {
      var i :| 0 <= i < |xs[1..]| && Same(v, xs[1..][i]);
      assert Same(v, xs[i + 1]);
    }
    if Occurs(v, xs) {
      var i :| 0 <= i < |xs| && Same(v, xs[i]);
      assert i > 0 ==> Same(v, xs[1..][i - 1]);
    }
  }

  lemma OccursAt(v: Value, xs: seq<Value>, j: nat)
    requires j < |xs| && Same(v, xs[j])
    ensures Occurs(v, xs)
  {
    hide Same;
  }

  lemma OccursAlso(v: Value, x: Value, xs: seq<Value>)
    requires Same(v, x) && Occurs(x, xs)
    ensures Occurs(v, xs)
  {
    hide Same;
    var i :| 0 <= i < |xs| && Same(x, xs[i]);
    Transitive(v, x, xs[i]);
  }

  lemma DeduplicatedIsEqual(xs: seq<Value>)
    ensures SetEqual(xs, Deduplicated(xs))
  {
    hide Same, Occurs;
    var r := Deduplicated(xs);
    forall i | 0 <= i < |xs| ensures Occurs(xs[i], r) {
      Reflexive(xs[i]);
      OccursAt(xs[i], xs, i);
    }
    forall j | 0 <= j < |r| ensures Occurs(r[j], xs) {
      Reflexive(r[j]);
      OccursAt(r[j], r, j);
    }
  }

  lemma DistinctIfSame(xs: seq<Value>, ys: seq<Value>)
    requires Same(SetV(xs), SetV(ys)) && Distinct(ys)
    ensures Distinct(xs)
  {
    var f, g := Bijection(SetV(xs), SetV(ys));
    hide Same;
    forall i, j | 0 <= i < j < |xs| ensures !Same(xs[i], xs[j]) {
      assert g[f[i]] == i && g[f[j]] == j;
      if Same(xs[i], xs[j]) {
        Symmetric(xs[i], ys[f[i]]);
        Transitive(ys[f[i]], xs[i], xs[j]);
        Transitive(ys[f[i]], xs[j], ys[f[j]]);
        Symmetric(ys[f[i]], ys[f[j]]);
      }
    }
  }

  /** The relation is equality of sets on the sets without duplicates, and on no others. */
  lemma SetEqualityExactly(xs: seq<Value>)
    ensures Distinct(xs) <==>
      forall ys: seq<Value> :: Distinct(ys) ==> (Same(SetV(xs), SetV(ys)) <==> SetEqual(xs, ys))
  {
    hide Same, Distinct, SetEqual;
    if Distinct(xs) {
      forall ys: seq<Value> | Distinct(ys) ensures Same(SetV(xs), SetV(ys)) <==> SetEqual(xs, ys) {
        BothDistinct(xs, ys);
      }
    } else {
      DeduplicatedIsEqual(xs);
      var ys := Deduplicated(xs);
      if Same(SetV(xs), SetV(ys)) {
        DistinctIfSame(xs, ys);
      }
    }
  }

  lemma BothDistinct(xs: seq<Value>, ys: seq<Value>)
    requires Distinct(xs) && Distinct(ys)
    ensures Same(SetV(xs), SetV(ys)) <==> SetEqual(xs, ys)
  {
    hide Same, Distinct, Occurs;
    if SetEqual(xs, ys) {
      EqualByLength(xs, ys);
      EqualByLength(ys, xs);
    }
    if Same(SetV(xs), SetV(ys)) {
      SameIsSetEqual(xs, ys);
    }
  }

  /**
   * What the source answers: on sets without duplicates, whether they are equal; for a set with
   * duplicates there is one without that is equal to it and for which the answer is no.
   */
  lemma AnswersSetEquality(xs: seq<Value>, depth: nat)
    requires UniqueKeys(SetV(xs)) && Shallow(SetV(xs), depth)
    ensures Distinct(xs) <==> forall ys: seq<Value> :: Distinct(ys) && UniqueKeys(SetV(ys)) && ErrorFree(SetV(ys)) ==>
      (Equal(SetV(xs), SetV(ys), depth) == Yes <==> SetEqual(xs, ys))
  {
    hide Same, Equal, Distinct, SetEqual, Shallow, UniqueKeys, ErrorFree, Deduplicated;
    forall ys: seq<Value> | UniqueKeys(SetV(ys)) && ErrorFree(SetV(ys))
      ensures Equal(SetV(xs), SetV(ys), depth) == Yes <==> Same(SetV(xs), SetV(ys))
    {
      EqualIsSame(SetV(xs), SetV(ys), depth);
    }
    SetEqualityExactly(xs);
    if !Distinct(xs) {
      DeduplicatedFine(xs);
      ShallowIsSmall(SetV(xs), depth);
      DeduplicatedIsEqual(xs);
      var ys := Deduplicated(xs);
      if Same(SetV(xs), SetV(ys)) {
        DistinctIfSame(xs, ys);
      }
      assert Distinct(ys) && UniqueKeys(SetV(ys)) && ErrorFree(SetV(ys)) && Equal(SetV(xs), SetV(ys), depth) != Yes;
    }
  }

  lemma {:induction false} DeduplicatedFine(xs: seq<Value>)
    ensures UniqueKeys(SetV(xs)) ==> UniqueKeys(SetV(Deduplicated(xs)))
    ensures ErrorFree(SetV(xs)) ==> ErrorFree(SetV(Deduplicated(xs)))
    decreases |xs|
  {
    if xs != [] {
      DeduplicatedFine(xs[1..]);
    }
  }

  /** `[1, 1] == [1]` is false. */
  lemma DuplicatesCount(depth: nat)
    requires depth <= MAX_EQUALS_DEPTH
    ensures Equal(SetV([LongV(1), LongV(1)]), SetV([LongV(1)]), depth) == No
    ensures SetEqual([LongV(1), LongV(1)], [LongV(1)])
  {
    var one, two := [LongV(1)], [LongV(1), LongV(1)];
    assert Same(two[0], one[0]) && Same(two[1], one[0]) && Same(one[0], two[0]);
  }
}
