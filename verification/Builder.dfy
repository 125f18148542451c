/**
 * The evaluation context under construction (the nxe_cedar_eval_ctx_*, nxe_cedar_record_* and
 * nxe_cedar_set_* calls). Handles share containers with the values already stored in the context, so
 * the stored values form a graph in the heap; every call keeps that graph a forest of bounded depth.
 */
module Builder {
  import opened Common
  import opened Syntax
  import opened Values
  import opened Semantics
  import Equality
  import Results
  import Slots

  const MAX_DEPTH: nat := 16

  // ---- Containers ----

  /** An attribute or element array (ngx_array_t): shared by handles and by the values that hold it. */
  class Container {
    const isSet: bool
    var members: seq<Member>

    constructor (isSet: bool)
      ensures this.isSet == isSet && members == []
    {
      this.isSet := isSet;
      members := [];
    }
  }

  datatype Item = Scalar(v: Value) | Nested(c: Container)

  /** A named attribute, or an element (whose name is empty). */
  datatype Member = Member(name: string, item: Item)

  /** What the record and set handles hold. */
  datatype Handle = Handle(store: Container, depth: nat)

  // ---- The graph of containers, as a value ----

  datatype Cell = Cell(isSet: bool, members: seq<Member>)

  /** The contents of all containers, how deep each one is and where it is stored. */
  datatype Graph = Graph(roots: set<Container>, cells: map<Container, Cell>,
                         level: map<Container, nat>, owner: map<Container, (Container, nat)>)

  predicate IsScalar(v: Value) {
    !v.SetV? && !v.RecordV? && !v.ErrorV? && (v.EntityV? ==> v.slot == NoSlot)
  }

  predicate DistinctNames(members: seq<Member>) {
    forall i, j :: 0 <= i < j < |members| ==> members[i].name != members[j].name
  }

  /** Member i of c is a scalar, or a container that is stored there and nowhere else, one level deeper. */
  ghost predicate MemberFits(g: Graph, c: Container, i: nat)
    requires c in g.cells && c in g.level && i < |g.cells[c].members|
  {
    match g.cells[c].members[i].item
    case Scalar(v) => IsScalar(v)
    case Nested(d) => d in g.owner && g.owner[d] == (c, i) && d in g.level && g.level[d] == g.level[c] + 1
  }

  /** d is stored where the graph says it is. */
  ghost predicate Stored(g: Graph, d: Container)
    requires d in g.owner
  {
    var (c, i) := g.owner[d];
    c in g.cells && i < |g.cells[c].members| && g.cells[c].members[i].item == Nested(d)
  }

  ghost predicate DomainsFit(g: Graph) {
    g.roots <= g.cells.Keys && g.level.Keys == g.cells.Keys && g.owner.Keys == g.cells.Keys - g.roots
  }

  ghost predicate CellsFit(g: Graph)
    requires DomainsFit(g)
  {
    && (forall r :: r in g.roots ==> g.level[r] == 0 && !g.cells[r].isSet)
    && (forall c :: c in g.cells ==> g.level[c] <= MAX_DEPTH && (g.cells[c].isSet || DistinctNames(g.cells[c].members)))
  }

  ghost predicate MembersFit(g: Graph)
    requires DomainsFit(g)
  {
    forall c, i: nat :: c in g.cells && i < |g.cells[c].members| ==> MemberFits(g, c, i)
  }

  /** A forest: every container but the four roots is stored exactly once, one level below its holder. */
  ghost predicate Forest(g: Graph) {
    DomainsFit(g) && CellsFit(g) && MembersFit(g) && forall d :: d in g.owner ==> Stored(g, d)
  }

  predicate HasName(members: seq<Member>, name: string) {
    exists i :: 0 <= i < |members| && members[i].name == name
  }

  ghost function Push(g: Graph, c: Container, m: Member): Graph
    requires c in g.cells
  {
    g.(cells := g.cells[c := Cell(g.cells[c].isSet, g.cells[c].members + [m])])
  }

  /** c gets a new, empty container d as its last member. */
  ghost function PushNested(g: Graph, c: Container, name: string, d: Container, isSet: bool): Graph
    requires c in g.cells && c in g.level
  {
    Push(g, c, Member(name, Nested(d))).(
      cells := Push(g, c, Member(name, Nested(d))).cells[d := Cell(isSet, [])],
      level := g.level[d := g.level[c] + 1],
      owner := g.owner[d := (c, |g.cells[c].members|)])
  }

  lemma PushNestedIs(g: Graph, c: Container, name: string, d: Container, isSet: bool)
    requires c in g.cells && c in g.level
    ensures PushNested(g, c, name, d, isSet) ==
      Graph(g.roots, g.cells[c := Cell(g.cells[c].isSet, g.cells[c].members + [Member(name, Nested(d))])][d := Cell(isSet, [])],
            g.level[d := g.level[c] + 1], g.owner[d := (c, |g.cells[c].members|)])
  {
  }

  lemma PushKeepsForest(g: Graph, c: Container, name: string, v: Value)
    requires Forest(g) && c in g.cells && IsScalar(v)
    requires g.cells[c].isSet || !HasName(g.cells[c].members, name)
    ensures Forest(Push(g, c, Member(name, Scalar(v))))
  {
    hide MemberFits, Stored;
    var g' := Push(g, c, Member(name, Scalar(v)));
    forall e, i: nat | e in g'.cells && i < |g'.cells[e].members| ensures MemberFits(g', e, i) {
      if i < |g.cells[e].members| {
        StaysFit(g, g', e, i);
      } else {
        ScalarFits(g', e, i);
      }
    }
    forall d | d in g'.owner ensures Stored(g', d) {
      StaysStored(g, g', d);
    }
  }

  lemma PushNestedDomains(g: Graph, c: Container, name: string, d: Container, isSet: bool)
    requires DomainsFit(g) && c in g.cells && d !in g.cells
    ensures DomainsFit(PushNested(g, c, name, d, isSet)) && Grows(g, PushNested(g, c, name, d, isSet))
  {
  }

  lemma PushNestedCells(g: Graph, c: Container, name: string, d: Container, isSet: bool)
    requires DomainsFit(g) && CellsFit(g) && c in g.cells && d !in g.cells && g.level[c] < MAX_DEPTH
    requires DomainsFit(PushNested(g, c, name, d, isSet))
    requires g.cells[c].isSet || !HasName(g.cells[c].members, name)
    ensures CellsFit(PushNested(g, c, name, d, isSet))
  {
    NameAdded(g.cells[c].members, Member(name, Nested(d)));
    PushNestedIs(g, c, name, d, isSet);
    assert DistinctNames([]);
    hide PushNested, Push, HasName, DistinctNames;
  }

  lemma NameAdded(members: seq<Member>, m: Member)
    ensures DistinctNames(members) && !HasName(members, m.name) ==> DistinctNames(members + [m])
  {
  }

  lemma PushNestedMembers(g: Graph, c: Container, name: string, d: Container, isSet: bool)
    requires DomainsFit(g) && MembersFit(g) && c in g.cells && d !in g.cells
    requires var g' := PushNested(g, c, name, d, isSet); DomainsFit(g') && Grows(g, g')
    ensures MembersFit(PushNested(g, c, name, d, isSet))
  {
    var g' := PushNested(g, c, name, d, isSet);
    assert g.level.Keys == g.cells.Keys && g'.level.Keys == g'.cells.Keys;
    hide MemberFits, DomainsFit, Grows;
    forall e, i: nat | e in g'.cells && i < |g'.cells[e].members| ensures MemberFits(g', e, i) {
      if e in g.cells && i < |g.cells[e].members| {
        StaysFit(g, g', e, i);
      } else {
        NestedFits(g', e, i);
      }
    }
  }

  /** c may take a new container under that name. */
  ghost predicate Pushable(g: Graph, c: Container, name: string) {
    && c in g.cells && c in g.level && g.level[c] < MAX_DEPTH
    && (g.cells[c].isSet || !HasName(g.cells[c].members, name))
  }

  lemma PushNestedKeepsForest(g: Graph, c: Container, name: string, d: Container, isSet: bool)
    requires Forest(g) && Pushable(g, c, name) && d !in g.cells
    ensures Forest(PushNested(g, c, name, d, isSet))
  {
    assert g.level.Keys == g.cells.Keys;
    hide MembersFit, CellsFit, DomainsFit, Grows, Stored;
    var g' := PushNested(g, c, name, d, isSet);
    PushNestedDomains(g, c, name, d, isSet);
    PushNestedCells(g, c, name, d, isSet);
    PushNestedMembers(g, c, name, d, isSet);
    forall e | e in g'.owner ensures Stored(g', e) {
      if e in g.owner {
        StaysStored(g, g', e);
      } else {
        StoredAt(g', e);
      }
    }
  }

  /** Adding members, and containers with their places, leaves the old ones in place. */
  ghost predicate Grows(g: Graph, g': Graph) {
    && (forall e :: e in g.cells ==> e in g'.cells && g.cells[e].members <= g'.cells[e].members)
    && (forall e :: e in g.level ==> e in g'.level && g'.level[e] == g.level[e])
    && (forall e :: e in g.owner ==> e in g'.owner && g'.owner[e] == g.owner[e])
  }

  lemma ScalarFits(g: Graph, c: Container, i: nat)
    requires c in g.cells && c in g.level && i < |g.cells[c].members|
    requires g.cells[c].members[i].item.Scalar? && IsScalar(g.cells[c].members[i].item.v)
    ensures MemberFits(g, c, i)
  {
  }

  lemma NestedFits(g: Graph, c: Container, i: nat)
    requires c in g.cells && c in g.level && i < |g.cells[c].members| && g.cells[c].members[i].item.Nested?
    requires var d := g.cells[c].members[i].item.c;
      d in g.owner && g.owner[d] == (c, i) && d in g.level && g.level[d] == g.level[c] + 1
    ensures MemberFits(g, c, i)
  {
  }

  lemma StoredAt(g: Graph, d: Container)
    requires d in g.owner
    requires var (c, i) := g.owner[d]; c in g.cells && i < |g.cells[c].members| && g.cells[c].members[i].item == Nested(d)
    ensures Stored(g, d)
  {
  }

  lemma StaysFit(g: Graph, g': Graph, e: Container, i: nat)
    requires Grows(g, g') && e in g.cells && e in g.level && i < |g.cells[e].members| && MemberFits(g, e, i)
    ensures MemberFits(g', e, i)
  {
  }

  lemma StaysStored(g: Graph, g': Graph, d: Container)
    requires Grows(g, g') && d in g.owner && Stored(g, d)
    ensures Stored(g', d)
  {
  }

  // ---- The values in the graph ----

  /** The value that a container stands for: finite, because levels grow towards the limit. */
  ghost function ValueOf(g: Graph, c: Container): Value
    requires Forest(g) && c in g.cells
    decreases MAX_DEPTH - g.level[c], 1, 0
  {
    if g.cells[c].isSet then SetV(EltsOf(g, c, |g.cells[c].members|))
    else RecordV(AttrsOfFirst(g, c, |g.cells[c].members|))
  }

  ghost function ItemOf(g: Graph, c: Container, i: nat): Value
    requires Forest(g) && c in g.cells && i < |g.cells[c].members|
    decreases MAX_DEPTH - g.level[c], 0, 0
  {
    assert MemberFits(g, c, i);
    match g.cells[c].members[i].item
    case Scalar(v) => v
    case Nested(d) => ValueOf(g, d)
  }

  /** The first n elements. */
  ghost function EltsOf(g: Graph, c: Container, n: nat): (vs: seq<Value>)
    requires Forest(g) && c in g.cells && n <= |g.cells[c].members|
    ensures |vs| == n && forall i :: 0 <= i < n ==> vs[i] == ItemOf(g, c, i)
    decreases MAX_DEPTH - g.level[c], 0, n + 1
  {
    if n == 0 then [] else EltsOf(g, c, n - 1) + [ItemOf(g, c, n - 1)]
  }

  /** The first n attributes. */
  ghost function AttrsOfFirst(g: Graph, c: Container, n: nat): (attrs: seq<Attr>)
    requires Forest(g) && c in g.cells && n <= |g.cells[c].members|
    ensures |attrs| == n && forall i :: 0 <= i < n ==> attrs[i] == Attr(g.cells[c].members[i].name, ItemOf(g, c, i))
    decreases MAX_DEPTH - g.level[c], 0, n + 1
  {
    if n == 0 then [] else AttrsOfFirst(g, c, n - 1) + [Attr(g.cells[c].members[n - 1].name, ItemOf(g, c, n - 1))]
  }

  /** What every container's value is like: bounded height, unique keys, no errors, no slot tags. */
  lemma {:induction false} ValueShape(g: Graph, c: Container)
    requires Forest(g) && c in g.cells
    ensures HeightAtMost(ValueOf(g, c), MAX_DEPTH + 1 - g.level[c])
    ensures UniqueKeys(ValueOf(g, c)) && ErrorFree(ValueOf(g, c)) && Slots.Untagged(ValueOf(g, c))
    decreases MAX_DEPTH - g.level[c]
  {
    forall i: nat | i < |g.cells[c].members|
      ensures HeightAtMost(ItemOf(g, c, i), MAX_DEPTH - g.level[c])
      ensures UniqueKeys(ItemOf(g, c, i)) && ErrorFree(ItemOf(g, c, i)) && Slots.Untagged(ItemOf(g, c, i))
    {
      assert MemberFits(g, c, i);
      match g.cells[c].members[i].item {
        case Scalar(v) =>
        case Nested(d) => ValueShape(g, d);
      }
    }
  }

  /** A stored value is within the limits of comparison exactly if no container in it is too large: depth never is. */
  lemma StoredShallow(g: Graph, c: Container)
    requires Forest(g) && c in g.cells
    ensures Equality.Shallow(ValueOf(g, c), 0) <==> AtMost(ValueOf(g, c), Equality.MAX_EQUALS_ELTS)
  {
    ValueShape(g, c);
    hide *;
    if AtMost(ValueOf(g, c), Equality.MAX_EQUALS_ELTS) {
      Equality.ShallowEnough(ValueOf(g, c), 0, MAX_DEPTH + 1 - g.level[c]);
    }
    if Equality.Shallow(ValueOf(g, c), 0) {
      Equality.ShallowIsSmall(ValueOf(g, c), 0);
    }
  }

  /**
   * `==` on stored values, or on whole contexts, never meets its depth limit: comparing one with all
   * others decides sameness, and comparing it with itself succeeds, exactly if none of its containers
   * has more than 1024 members.
   */
  lemma StoredValuesCompare(g: Graph, c: Container)
    requires Forest(g) && c in g.cells
    ensures AtMost(ValueOf(g, c), Equality.MAX_EQUALS_ELTS) ==>
      forall d :: d in g.cells ==>
        (Equality.Equal(ValueOf(g, c), ValueOf(g, d), 0) ==
         if Equality.Same(ValueOf(g, c), ValueOf(g, d)) then Equality.Yes else Equality.No)
    ensures Equality.Equal(ValueOf(g, c), ValueOf(g, c), 0) ==
      if AtMost(ValueOf(g, c), Equality.MAX_EQUALS_ELTS) then Equality.Yes else Equality.Fail
  {
    hide Forest, ValueOf, Equality.Shallow, Equality.Equal, Equality.Same, AtMost, HeightAtMost, UniqueKeys, ErrorFree;
    StoredShallow(g, c);
    Equality.SelfAnswer(ValueOf(g, c), 0);
    ValueShape(g, c);
    if AtMost(ValueOf(g, c), Equality.MAX_EQUALS_ELTS) {
      forall d | d in g.cells ensures Equality.Equal(ValueOf(g, c), ValueOf(g, d), 0) ==
        if Equality.Same(ValueOf(g, c), ValueOf(g, d)) then Equality.Yes else Equality.No
      {
        ValueShape(g, d);
        Equality.EqualIsSame(ValueOf(g, c), ValueOf(g, d), 0);
      }
    }
  }

  /** Following holders upwards from c takes level(c) steps to a root. */
  ghost function Ancestor(g: Graph, c: Container, k: nat): Container
    requires Forest(g) && c in g.cells && k <= g.level[c]
    decreases k
  {
    if k == 0 then c else assert c in g.owner && Stored(g, c); AboveLevel(g, c); Ancestor(g, g.owner[c].0, k - 1)
  }

  lemma Domains(g: Graph)
    requires Forest(g)
    ensures g.level.Keys == g.cells.Keys && g.owner.Keys == g.cells.Keys - g.roots
  {
  }

  lemma AboveLevel(g: Graph, d: Container)
    requires Forest(g) && d in g.owner
    ensures g.owner[d].0 in g.cells && g.level[g.owner[d].0] + 1 == g.level[d]
  {
    var (c, i) := g.owner[d];
    assert Stored(g, d);
    assert MemberFits(g, c, i);
  }

  lemma {:induction false} LevelIsNesting(g: Graph, c: Container)
    requires Forest(g) && c in g.cells
    ensures Ancestor(g, c, g.level[c]) in g.roots
    decreases g.level[c]
  {
    if g.level[c] > 0 {
      assert c in g.owner;
      AboveLevel(g, c);
      LevelIsNesting(g, g.owner[c].0);
    } else if c in g.owner {
      AboveLevel(g, c);
      assert false;
    }
  }

  /** No container is stored twice. */
  lemma StoredOnce(g: Graph, c: Container, i: nat, c': Container, i': nat)
    requires Forest(g) && c in g.cells && c' in g.cells && i < |g.cells[c].members| && i' < |g.cells[c'].members|
    requires g.cells[c].members[i].item.Nested? && g.cells[c].members[i].item == g.cells[c'].members[i'].item
    ensures c == c' && i == i'
  {
    assert MemberFits(g, c, i) && MemberFits(g, c', i');
  }

  // ---- What a push changes ----

  /** A push into c is invisible from every other container at its level or below. */
  lemma {:induction false} PushInvisible(g: Graph, g': Graph, c: Container, d: Container)
    requires Forest(g) && Forest(g') && c in g.cells && d in g.cells && d in g'.cells && d != c
    requires g.level[d] >= g.level[c]
    requires forall e :: e in g.cells && e != c ==> e in g'.cells && g'.cells[e] == g.cells[e] && g'.level[e] == g.level[e]
    ensures ValueOf(g', d) == ValueOf(g, d)
    decreases MAX_DEPTH - g.level[d]
  {
    forall i: nat | i < |g.cells[d].members| ensures ItemOf(g', d, i) == ItemOf(g, d, i) {
      assert MemberFits(g, d, i) && MemberFits(g', d, i);
      match g.cells[d].members[i].item {
        case Scalar(v) =>
        case Nested(e) => PushInvisible(g, g', c, e);
      }
    }
    if g.cells[d].isSet {
      assert ValueOf(g', d).elts == ValueOf(g, d).elts;
    } else {
      assert ValueOf(g', d).attrs == ValueOf(g, d).attrs;
    }
  }

  /** A value with one more member at the end. */
  function Extended(v: Value, name: string, x: Value): Value
    requires v.SetV? || v.RecordV?
  {
    if v.SetV? then SetV(v.elts + [x]) else RecordV(v.attrs + [Attr(name, x)])
  }

  lemma ScalarItem(g: Graph, c: Container, i: nat)
    requires Forest(g) && c in g.cells && i < |g.cells[c].members| && g.cells[c].members[i].item.Scalar?
    ensures ItemOf(g, c, i) == g.cells[c].members[i].item.v
  {
  }

  /** A scalar pushed through a handle is in the stored value that the handle aliases. */
  lemma PushVisible(g: Graph, c: Container, name: string, v: Value)
    requires Forest(g) && c in g.cells && IsScalar(v)
    requires g.cells[c].isSet || !HasName(g.cells[c].members, name)
    ensures Forest(Push(g, c, Member(name, Scalar(v))))
    ensures ValueOf(Push(g, c, Member(name, Scalar(v))), c) == Extended(ValueOf(g, c), name, v)
  {
    hide Forest, ValueOf, ItemOf, MemberFits;
    Domains(g);
    PushKeepsForest(g, c, name, v);
    var g' := Push(g, c, Member(name, Scalar(v)));
    SameItems(g, g', c);
    ScalarItem(g', c, |g.cells[c].members|);
    OneMoreItem(g, g', c, Member(name, Scalar(v)), v);
  }

  /** A container with one more member, which stands for x, stands for a value with x at the end. */
  lemma OneMoreItem(g: Graph, g': Graph, c: Container, m: Member, x: Value)
    requires Forest(g) && Forest(g') && c in g.cells && c in g'.cells
    requires g'.cells[c] == Cell(g.cells[c].isSet, g.cells[c].members + [m])
    requires forall i: nat :: i < |g.cells[c].members| ==> ItemOf(g', c, i) == ItemOf(g, c, i)
    requires ItemOf(g', c, |g.cells[c].members|) == x
    ensures ValueOf(g', c) == Extended(ValueOf(g, c), m.name, x)
  {
    hide Forest, ItemOf, MemberFits, EltsOf, AttrsOfFirst;
    if g.cells[c].isSet {
      assert ValueOf(g', c).elts == ValueOf(g, c).elts + [x];
    } else {
      assert ValueOf(g', c).attrs == ValueOf(g, c).attrs + [Attr(m.name, x)];
    }
  }

  /** What c held before is unchanged by a push into c. */
  lemma SameItems(g: Graph, g': Graph, c: Container)
    requires Forest(g) && Forest(g') && c in g.cells && c in g'.cells && g'.level[c] == g.level[c]
    requires g.cells[c].members <= g'.cells[c].members
    requires forall e :: e in g.cells && e != c ==> e in g'.cells && g'.cells[e] == g.cells[e] && g'.level[e] == g.level[e]
    ensures forall i: nat :: i < |g.cells[c].members| ==> ItemOf(g', c, i) == ItemOf(g, c, i)
  {
    forall i: nat | i < |g.cells[c].members| ensures ItemOf(g', c, i) == ItemOf(g, c, i) {
      assert MemberFits(g, c, i) && MemberFits(g', c, i);
      match g.cells[c].members[i].item {
        case Scalar(v) =>
        case Nested(e) => PushInvisible(g, g', c, e);
      }
    }
  }

  /** A new container is empty, and is the last member of its holder. */
  lemma NestedVisible(g: Graph, c: Container, name: string, d: Container, isSet: bool)
    requires Forest(g) && Pushable(g, c, name) && d !in g.cells
    ensures Forest(PushNested(g, c, name, d, isSet))
    ensures ValueOf(PushNested(g, c, name, d, isSet), c) ==
      Extended(ValueOf(g, c), name, if isSet then SetV([]) else RecordV([]))
  {
    hide Forest, Extended, HasName;
    Domains(g);
    PushNestedKeepsForest(g, c, name, d, isSet);
    var g', n := PushNested(g, c, name, d, isSet), |g.cells[c].members|;
    SameItems(g, g', c);
    assert ValueOf(g', d) == if isSet then SetV([]) else RecordV([]);
    assert ItemOf(g', c, n) == ValueOf(g', d);
    OneMoreItem(g, g', c, Member(name, Nested(d)), ValueOf(g', d));
  }

  ghost function EmptyGraph(roots: set<Container>): Graph {
    Graph(roots, map c | c in roots :: Cell(false, []), map c | c in roots :: 0, map[])
  }

  lemma EmptyForest(roots: set<Container>)
    ensures Forest(EmptyGraph(roots)) && forall r :: r in roots ==> ValueOf(EmptyGraph(roots), r) == RecordV([])
  {
  }

  // ---- The calls ----

  /** A scalar as the caller gives it; extension values are parsed at once. */
  datatype Input = StrIn(s: string) | LongIn(n: int) | BoolIn(b: bool) | EntityIn(ty: string, id: string) | ExtIn(kind: ExtKind, text: string)

  function Parse(input: Input): (v: Value)
    ensures v.ErrorV? || IsScalar(v)
  {
    match input
    case StrIn(s) => StrV(s)
    case LongIn(n) => LongV(n)
    case BoolIn(b) => BoolV(b)
    case EntityIn(ty, id) => EntityV(ty, id, NoSlot)
    case ExtIn(kind, text) => ExtOf(kind, text)
  }

  /** A handle aliases one stored container, which no other handle aliases, and knows its level. */
  ghost predicate HandlesFit(handles: set<Handle>, level: map<Container, nat>, owner: map<Container, (Container, nat)>) {
    && (forall h :: h in handles ==> h.store in owner && h.store in level && level[h.store] == h.depth && 1 <= h.depth <= MAX_DEPTH)
    && (forall h, h' :: h in handles && h' in handles && h.store == h'.store ==> h == h')
  }

  lemma NoHandles(level: map<Container, nat>, owner: map<Container, (Container, nat)>)
    ensures HandlesFit({}, level, owner)
  {
  }

  lemma OneMoreHandle(handles: set<Handle>, level: map<Container, nat>, owner: map<Container, (Container, nat)>,
                      h: Handle, place: (Container, nat))
    requires HandlesFit(handles, level, owner) && h.store !in owner && 1 <= h.depth <= MAX_DEPTH
    ensures HandlesFit(handles + {h}, level[h.store := h.depth], owner[h.store := place])
  {
  }

  class ContextBuilder {
    const principal: Container
    const action: Container
    const resource: Container
    const context: Container

    ghost var containers: set<Container>
    ghost var level: map<Container, nat>
    ghost var owner: map<Container, (Container, nat)>
    ghost var handles: set<Handle>

    ghost function Roots(): set<Container> {
      {principal, action, resource, context}
    }

    ghost function View(): Graph
      reads this`containers, this`level, this`owner, containers
    {
      Graph(Roots(), map c | c in containers :: Cell(c.isSet, c.members), level, owner)
    }

    /** The graph is a forest, and the handles fit it. */
    ghost predicate Valid()
      reads this, containers
    {
      && principal !in {action, resource, context} && action !in {resource, context} && resource != context
      && Forest(View())
      && HandlesFit(handles, level, owner)
    }

    /** nxe_cedar_eval_ctx_create. */
    constructor ()
      ensures Valid() && fresh(containers) && handles == {}
      ensures forall r :: r in Roots() ==> ValueOf(View(), r) == RecordV([])
    {
      var p := new Container(false);
      var a := new Container(false);
      var r := new Container(false);
      var c := new Container(false);
      principal, action, resource, context := p, a, r, c;
      containers, owner, handles := {p, a, r, c}, map[], {};
      level := EmptyGraph({p, a, r, c}).level;
      new;
      hide Forest, ValueOf, HandlesFit;
      NoHandles(level, owner);
      EmptyForest(Roots());
      assert View() == EmptyGraph(Roots());
    }

    /** nxe_cedar_attrs_has_name. */
    method FindName(c: Container, name: string) returns (found: bool)
      ensures found == HasName(c.members, name)
    {
      var i := 0;
      while i < |c.members|
        invariant 0 <= i <= |c.members|
        invariant forall j :: 0 <= j < i ==> c.members[j].name != name
      {
        if c.members[i].name == name {
          return true;
        }
        i := i + 1;
      }
      return false;
    }

    /** Adding a scalar attribute to an entity, to the context or to a record. */
    method AddAttr(c: Container, name: string, input: Input) returns (ok: bool)
      requires Valid() && c in containers && !c.isSet
      modifies c
      ensures Valid() && containers == old(containers) && handles == old(handles)
      ensures ok <==> !HasName(old(c.members), name) && !Parse(input).ErrorV?
      ensures View() == if ok then Push(old(View()), c, Member(name, Scalar(Parse(input)))) else old(View())
    {
      var found := FindName(c, name);
      if found || Parse(input).ErrorV? {
        return false;
      }
      hide Forest, Parse, HandlesFit, DistinctNames, Push, IsScalar;
      ghost var g := View();
      PushKeepsForest(g, c, name, Parse(input));
      c.members := c.members + [Member(name, Scalar(Parse(input)))];
      assert View().cells == Push(g, c, Member(name, Scalar(Parse(input)))).cells;
      ok := true;
    }

    /** Adding a record or a set as an attribute of c, whose depth is `depth` (0 for a root). */
    method AddNestedAttr(c: Container, name: string, depth: nat, isSet: bool) returns (h: Option<Handle>)
      requires Valid() && c in containers && !c.isSet && depth == level[c]
      modifies this, c
      ensures Valid()
      ensures h.Some? <==> !HasName(old(c.members), name) && depth < 16
      ensures h.None? ==> View() == old(View()) && handles == old(handles)
      ensures h.Some? ==> View() == PushNested(old(View()), c, name, h.value.store, isSet)
      ensures h.Some? ==> fresh(h.value.store) && h.value.depth == depth + 1 && handles == old(handles) + {h.value}
    {
      var found := FindName(c, name);
      if found || depth >= MAX_DEPTH {
        return None;
      }
      assert Pushable(View(), c, name) && c in level && owner.Keys <= containers;
      var d := PushNew(c, name, depth, isSet);
      return Some(d);
    }

    /** Creates a container and a handle for it, and stores it in c. */
    method PushNew(c: Container, name: string, depth: nat, isSet: bool) returns (h: Handle)
      requires Valid() && Pushable(View(), c, name) && owner.Keys <= containers
      requires c in containers && c in level && depth == level[c] < MAX_DEPTH
      modifies this, c
      ensures Valid()
      ensures View() == PushNested(old(View()), c, name, h.store, isSet)
      ensures fresh(h.store) && h.depth == depth + 1 && handles == old(handles) + {h}
    {
      ghost var g := View();
      hide Forest, View, PushNested, Push, HandlesFit, HasName, DistinctNames;
      var d := Attach(c, name, isSet);
      PushNestedKeepsForest(g, c, name, d, isSet);
      h := Handle(d, depth + 1);
      OneMoreHandle(handles, old(level), old(owner), h, (c, |old(c.members)|));
      handles := handles + {h};
    }

    /** The new container, the array push, and a record of the place. */
    method Attach(c: Container, name: string, isSet: bool) returns (d: Container)
      requires c in containers && c in level && owner.Keys <= containers
      modifies this`containers, this`level, this`owner, c
      ensures fresh(d) && d !in old(View()).cells && d !in old(owner) && containers == old(containers) + {d}
      ensures View() == PushNested(old(View()), c, name, d, isSet)
      ensures level == old(level)[d := old(level[c]) + 1]
      ensures owner == old(owner)[d := (c, |old(c.members)|)]
    {
      hide Forest, Pushable, HandlesFit, HasName, DistinctNames, PushNested, Push;
      ghost var g := View();
      d := new Container(isSet);
      PushNestedIs(g, c, name, d, isSet);
      level, owner := level[d := level[c] + 1], owner[d := (c, |c.members|)];
      c.members := c.members + [Member(name, Nested(d))];
      containers := containers + {d};
      assert View().cells == PushNested(g, c, name, d, isSet).cells;
    }

    /** nxe_cedar_record_add_str, _long, _bool, _ip, ... : an attribute of the record a handle aliases. */
    method RecordAdd(h: Handle, name: string, input: Input) returns (ok: bool)
      requires Valid() && h in handles && !h.store.isSet
      modifies h.store
      ensures Valid() && containers == old(containers) && handles == old(handles)
      ensures ok <==> !HasName(old(h.store.members), name) && !Parse(input).ErrorV?
      ensures View() == if ok then Push(old(View()), h.store, Member(name, Scalar(Parse(input)))) else old(View())
    {
      ok := AddAttr(h.store, name, input);
    }

    /** nxe_cedar_record_add_record and nxe_cedar_record_add_set: one depth limit for both kinds. */
    method RecordAddNested(h: Handle, name: string, isSet: bool) returns (r: Option<Handle>)
      requires Valid() && h in handles && !h.store.isSet
      modifies this, h.store
      ensures Valid()
      ensures r.Some? <==> !HasName(old(h.store.members), name) && h.depth < 16
      ensures r.None? ==> View() == old(View()) && handles == old(handles)
      ensures r.Some? ==> View() == PushNested(old(View()), h.store, name, r.value.store, isSet)
      ensures r.Some? ==> fresh(r.value.store) && r.value.depth == h.depth + 1 && handles == old(handles) + {r.value}
    {
      r := AddNestedAttr(h.store, name, h.depth, isSet);
    }

    /** nxe_cedar_set_add_str, _long, _entity, ... : elements need no name and may repeat. */
    method SetAdd(h: Handle, input: Input) returns (ok: bool)
      requires Valid() && h in handles && h.store.isSet
      modifies h.store
      ensures Valid() && containers == old(containers) && handles == old(handles)
      ensures ok <==> !Parse(input).ErrorV?
      ensures View() == if ok then Push(old(View()), h.store, Member("", Scalar(Parse(input)))) else old(View())
    {
      if Parse(input).ErrorV? {
        return false;
      }
      hide Forest, Parse, HandlesFit, DistinctNames, Push, IsScalar;
      ghost var g := View();
      Domains(g);
      PushKeepsForest(g, h.store, "", Parse(input));
      h.store.members := h.store.members + [Member("", Scalar(Parse(input)))];
      assert View().cells == Push(g, h.store, Member("", Scalar(Parse(input)))).cells;
      ok := true;
    }

    /** nxe_cedar_set_add_set and nxe_cedar_set_add_record. */
    method SetAddNested(h: Handle, isSet: bool) returns (r: Option<Handle>)
      requires Valid() && h in handles && h.store.isSet
      modifies this, h.store
      ensures Valid()
      ensures r.Some? <==> h.depth < 16
      ensures r.None? ==> View() == old(View()) && handles == old(handles)
      ensures r.Some? ==> View() == PushNested(old(View()), h.store, "", r.value.store, isSet)
      ensures r.Some? ==> fresh(r.value.store) && r.value.depth == h.depth + 1 && handles == old(handles) + {r.value}
    {
      if h.depth >= MAX_DEPTH {
        return None;
      }
      assert Pushable(View(), h.store, "") && h.store in level && owner.Keys <= containers;
      var d := PushNew(h.store, "", h.depth, isSet);
      return Some(d);
    }
  }

  /**
   * What every handle of a builder is, whatever calls were made: it aliases a container that is stored in
   * exactly one place, no other handle does, and its depth is the true nesting of that container.
   */
  lemma HandleAliases(b: ContextBuilder, h: Handle)
    requires b.Valid() && h in b.handles
    ensures var g := b.View();
      && h.store in g.cells && Stored(g, h.store)
      && (forall c, i: nat :: c in g.cells && i < |g.cells[c].members| && g.cells[c].members[i].item == Nested(h.store) ==>
            (c, i) == g.owner[h.store])
      && 1 <= h.depth == g.level[h.store] <= 16 && Ancestor(g, h.store, h.depth) in g.roots
    ensures forall h' :: h' in b.handles && h'.store == h.store ==> h' == h
  {
    var g := b.View();
    Domains(g);
    assert Stored(g, h.store);
    forall c, i: nat | c in g.cells && i < |g.cells[c].members| && g.cells[c].members[i].item == Nested(h.store)
      ensures (c, i) == g.owner[h.store]
    {
      assert MemberFits(g, c, i);
    }
    LevelIsNesting(g, h.store);
  }

  // ---- The request that was built ----

  /** The request that evaluation sees, given the identities and the registered ancestors. */
  ghost function Request(g: Graph, b: ContextBuilder, p: Ref, a: Ref, r: Ref, pp: seq<Ref>, ap: seq<Ref>, rp: seq<Ref>): Env
    requires Forest(g) && g.roots == b.Roots()
  {
    Env(Party(p.ty, p.id, AttrsAt(g, b.principal), pp), Party(a.ty, a.id, AttrsAt(g, b.action), ap),
        Party(r.ty, r.id, AttrsAt(g, b.resource), rp), AttrsAt(g, b.context))
  }

  ghost function AttrsAt(g: Graph, c: Container): seq<Attr>
    requires Forest(g) && c in g.roots
  {
    ValueOf(g, c).attrs
  }

  /** Every request that the builder can build meets what the theorems on evaluation ask of it. */
  lemma RequestIsSound(g: Graph, b: ContextBuilder, p: Ref, a: Ref, r: Ref, pp: seq<Ref>, ap: seq<Ref>, rp: seq<Ref>)
    requires Forest(g) && g.roots == b.Roots()
    ensures Results.SoundEnv(Request(g, b, p, a, r, pp, ap, rp)) && Slots.UntaggedEnv(Request(g, b, p, a, r, pp, ap, rp))
  {
    ValueShape(g, b.principal);
    ValueShape(g, b.action);
    ValueShape(g, b.resource);
    ValueShape(g, b.context);
  }
}
