/** Promoted members: breadth-first search through embedded struct fields, and the re-walk of the path
    it finds. */
module PromotedLookup {
  import opened Wrappers
  import opened Sequences

  /** A type with its outer qualifier. Only struct types have members here. */
  datatype ValueType = StructValue(name: string, isConst: bool) | OtherValue(text: string, isConst: bool)

  datatype Access = GetOnly | GetSet

  datatype Member = Member(ty: ValueType, embedded: bool, access: Access)

  datatype LookupKind = ValueField | Method | ExtensionMethod | AmbiguousMethod | NotFound

  /** `order` is the order in which the member table happens to be iterated. `methods` stands for what
      methods, extensions and traits make of a name that is not a member. */
  datatype StructDecl = StructDecl(members: map<string, Member>, order: seq<string>, methods: map<string, LookupKind>)

  datatype Program = Program(structs: map<string, StructDecl>, methodParent: Option<string>)

  predicate WellFormed(p: Program) {
    && (forall s <- p.structs :: Distinct(p.structs[s].order)
                              && p.structs[s].members.Keys == (set n <- p.structs[s].order)
                              && forall n <- p.structs[s].methods :: !p.structs[s].methods[n].ValueField?)
    && (forall s <- p.structs, n <- p.structs[s].members ::
          var ty := p.structs[s].members[n].ty; ty.StructValue? ==> ty.name in p.structs)
  }

  /** Structs embed each other by value, so some ranking decreases along embedding. */
  ghost predicate Acyclic(p: Program, rank: string -> nat) {
    forall s <- p.structs, n <- p.structs[s].members ::
      var m := p.structs[s].members[n]; m.embedded && m.ty.StructValue? ==> rank(m.ty.name) < rank(s)
  }

  // ---------------------------------------------------------------------------------------------
  // Direct lookup and projection
  // ---------------------------------------------------------------------------------------------

  /** The type of a member seen through a value of the owner: const owners, and read-only access from
      outside the struct's own methods, make it const. */
  function Project(p: Program, owner: ValueType, m: Member): ValueType
    requires owner.StructValue?
  {
    var readOnly := owner.isConst || (m.access.GetOnly? && p.methodParent != Some(owner.name));
    m.ty.(isConst := m.ty.isConst || readOnly)
  }

  function DirectKind(p: Program, v: ValueType, name: string): LookupKind {
    if !v.StructValue? || v.name !in p.structs then NotFound
    else
      var s := p.structs[v.name];
      if name in s.members then ValueField
      else if name in s.methods then s.methods[name]
      else NotFound
  }

  predicate Candidate(k: LookupKind) {
    k.ValueField? || k.Method? || k.ExtensionMethod?
  }

  // ---------------------------------------------------------------------------------------------
  // Paths through embedded fields
  // ---------------------------------------------------------------------------------------------

  function Enter(p: Program, v: ValueType, name: string): Option<ValueType> {
    if v.StructValue? && v.name in p.structs && name in p.structs[v.name].members then
      var m := p.structs[v.name].members[name];
      if m.embedded && m.ty.StructValue? then Some(Project(p, v, m)) else None
    else None
  }

  function Walk(p: Program, v: ValueType, path: seq<string>): Option<ValueType>
    decreases path
  {
    if path == [] then Some(v)
    else
      var w := Enter(p, v, path[0]);
      if w.None? then None else Walk(p, w.value, path[1..])
  }

  lemma {:induction false} WalkSnoc(p: Program, v: ValueType, path: seq<string>, name: string)
    ensures Walk(p, v, path + [name])
         == if Walk(p, v, path).None? then None else Enter(p, Walk(p, v, path).value, name)
    decreases path
  {
    if path == [] {
    } else {
      assert (path + [name])[1..] == path[1..] + [name];
      if Enter(p, v, path[0]).Some? {
        WalkSnoc(p, Enter(p, v, path[0]).value, path[1..], name);
      }
    }
  }

  /** Neither nothing nor several methods. */
  predicate SingleAnswer(k: LookupKind) {
    !k.NotFound? && !k.AmbiguousMethod?
  }

  /** The path leads through embedded fields to a struct where the name has a single answer of any kind. */
  predicate Resolves(p: Program, owner: ValueType, name: string, path: seq<string>) {
    path != [] && Walk(p, owner, path).Some? && SingleAnswer(DirectKind(p, Walk(p, owner, path).value, name))
  }

  // ---------------------------------------------------------------------------------------------
  // The search
  // ---------------------------------------------------------------------------------------------

  datatype State = State(value: ValueType, path: seq<string>)

  datatype Outcome =
    | NoMember
    | Found(path: seq<string>, kind: LookupKind)
    | Ambiguous(paths: seq<seq<string>>)

  /** What promoted lookup has to answer; nothing here depends on an iteration order. */
  ghost predicate IsOutcome(p: Program, owner: ValueType, name: string, r: Outcome) {
    match r
    case NoMember => forall q :: !Resolves(p, owner, name, q)
    case Found(path, kind) =>
      && Resolves(p, owner, name, path)
      && kind == DirectKind(p, Walk(p, owner, path).value, name)
      && forall q :: Resolves(p, owner, name, q) ==> q == path || |path| < |q|
    case Ambiguous(paths) =>
      && |paths| >= 2 && Distinct(paths)
      && (forall q, r :: q in paths && Resolves(p, owner, name, r) ==> |q| <= |r|)
      && (forall q, r :: q in paths && Resolves(p, owner, name, r) && |r| == |q| ==> r in paths)
      && (forall q :: q in paths ==> Resolves(p, owner, name, q))
  }

  function Expand(p: Program, s: State, order: seq<string>): seq<State> {
    if order == [] then []
    else
      var v := Enter(p, s.value, order[0]);
      (if v.Some? then [State(v.value, s.path + [order[0]])] else []) + Expand(p, s, order[1..])
  }

  function Order(p: Program, v: ValueType): seq<string> {
    if v.StructValue? && v.name in p.structs then p.structs[v.name].order else []
  }

  function ExpandAll(p: Program, states: seq<State>): seq<State> {
    if states == [] then []
    else
      var last := states[|states| - 1];
      ExpandAll(p, states[..|states| - 1]) + Expand(p, last, Order(p, last.value))
  }

  /** The states the search looks at in its d-th round; round 0 is the owner itself. */
  function Level(p: Program, owner: ValueType, d: nat): seq<State> {
    if d == 0 then [State(owner, [])] else ExpandAll(p, Level(p, owner, d - 1))
  }

  predicate Hit(p: Program, name: string, s: State) {
    Candidate(DirectKind(p, s.value, name))
  }

  function Hits(p: Program, name: string, states: seq<State>): seq<State> {
    if states == [] then []
    else
      var last := states[|states| - 1];
      Hits(p, name, states[..|states| - 1]) + (if Hit(p, name, last) then [last] else [])
  }

  method CollectEmbeddedLookupStates(p: Program, owner: State) returns (states: seq<State>)
    ensures states == Expand(p, owner, Order(p, owner.value))
  {
    states := [];
    var order := Order(p, owner.value);
    for i := 0 to |order|
      invariant states + Expand(p, owner, order[i..]) == Expand(p, owner, order)
    {
      assert order[i..][1..] == order[i + 1..];
      var v := Enter(p, owner.value, order[i]);
      if v.Some? {
        states := states + [State(v.value, owner.path + [order[i]])];
      }
    }
  }

  /** One round: the states that resolve the name, and the states one embedded field further down. */
  method SearchRound(p: Program, name: string, frontier: seq<State>) returns (candidates: seq<State>, next: seq<State>)
    ensures candidates == Hits(p, name, frontier)
    ensures next == ExpandAll(p, frontier)
  {
    candidates, next := [], [];
    for i := 0 to |frontier|
      invariant candidates == Hits(p, name, frontier[..i])
      invariant next == ExpandAll(p, frontier[..i])
    {
      assert frontier[..i + 1][..i] == frontier[..i];
      if Hit(p, name, frontier[i]) {
        candidates := candidates + [frontier[i]];
      }
      var states := CollectEmbeddedLookupStates(p, frontier[i]);
      next := next + states;
    }
    assert frontier[..|frontier|] == frontier;
  }

  method LookupPromotedValueMember(p: Program, owner: ValueType, name: string, ghost rank: string -> nat)
      returns (r: Outcome)
    requires WellFormed(p) && Acyclic(p, rank) && owner.StructValue? && owner.name in p.structs
    ensures IsOutcome(p, owner, name, r)
  {
    ghost var d: nat := 1;
    var frontier := CollectEmbeddedLookupStates(p, State(owner, []));
    LevelOne(p, owner);
    LevelRank(p, owner, d, rank);
    while frontier != []
      invariant d >= 1 && frontier == Level(p, owner, d)
      invariant frontier != [] ==> d <= rank(owner.name)
      invariant NoneBefore(p, owner, name, d)
      decreases rank(owner.name) + 1 - d
    {
      var candidates, next := SearchRound(p, name, frontier);
      HitsExact(p, owner, name, d);
      if |candidates| == 1 {
        r := Found(candidates[0].path, DirectKind(p, candidates[0].value, name));
        OneCandidate(p, owner, name, d, candidates);
        return;
      }
      if |candidates| > 1 {
        r := Ambiguous(Paths(candidates));
        SeveralCandidates(p, owner, name, d, candidates);
        return;
      }
      NoCandidate(p, owner, name, d);
      frontier, d := next, d + 1;
      LevelRank(p, owner, d, rank);
    }
    NoDeeperPath(p, owner, d);
    r := NoMember;
  }

  // ---------------------------------------------------------------------------------------------
  // Each round looks at every path of its length exactly once
  // ---------------------------------------------------------------------------------------------

  predicate DistinctPaths(states: seq<State>) {
    forall i, j :: 0 <= i < j < |states| ==> states[i].path != states[j].path
  }

  lemma {:induction false} ExpandExact(p: Program, s: State, order: seq<string>, t: State)
    ensures t in Expand(p, s, order)
       <==> exists n <- order :: Enter(p, s.value, n) == Some(t.value) && t.path == s.path + [n]
  {
    if order == [] {
    } else {
      ExpandExact(p, s, order[1..], t);
      assert order == [order[0]] + order[1..];
    }
  }

  lemma {:induction false} ExpandDistinct(p: Program, s: State, order: seq<string>)
    requires Distinct(order)
    ensures DistinctPaths(Expand(p, s, order))
  {
    if order == [] {
    } else {
      ExpandDistinct(p, s, order[1..]);
      forall t <- Expand(p, s, order[1..]) ensures t.path != s.path + [order[0]] {
        ExpandExact(p, s, order[1..], t);
        assert (s.path + [order[0]])[|s.path|] == order[0];
      }
    }
  }

  lemma {:induction false} ExpandAllExact(p: Program, states: seq<State>, t: State)
    ensures t in ExpandAll(p, states) <==> exists s <- states :: t in Expand(p, s, Order(p, s.value))
  {
    if states == [] {
    } else {
      var k := |states| - 1;
      ExpandAllExact(p, states[..k], t);
      assert states == states[..k] + [states[k]];
    }
  }

  lemma {:induction false} ExpandAllDistinct(p: Program, states: seq<State>)
    requires WellFormed(p) && DistinctPaths(states)
    ensures DistinctPaths(ExpandAll(p, states))
  {
    if states == [] {
    } else {
      var k := |states| - 1;
      var last := states[k];
      ExpandAllDistinct(p, states[..k]);
      ExpandDistinct(p, last, Order(p, last.value));
      var earlier, later := ExpandAll(p, states[..k]), Expand(p, last, Order(p, last.value));
      forall t <- earlier, u <- later ensures t.path != u.path {
        ExpandAllExact(p, states[..k], t);
        var s :| s in states[..k] && t in Expand(p, s, Order(p, s.value));
        ExpandExact(p, s, Order(p, s.value), t);
        ExpandExact(p, last, Order(p, last.value), u);
        assert t.path[..|t.path| - 1] == s.path && u.path[..|u.path| - 1] == last.path;
      }
      DistinctAppend(earlier, later);
    }
  }

  lemma DistinctAppend(a: seq<State>, b: seq<State>)
    requires DistinctPaths(a) && DistinctPaths(b)
    requires forall t <- a, u <- b :: t.path != u.path
    ensures DistinctPaths(a + b)
  {
    forall i, j | 0 <= i < j < |a + b| ensures (a + b)[i].path != (a + b)[j].path {
      if i < |a| <= j {
        assert (a + b)[i] in a && (a + b)[j] in b;
      }
    }
  }

  ghost predicate WalkedTo(p: Program, owner: ValueType, d: nat, s: State) {
    |s.path| == d && Walk(p, owner, s.path) == Some(s.value)
  }

  lemma ExpandSound(p: Program, owner: ValueType, d: nat, s: State, t: State)
    requires WalkedTo(p, owner, d, s) && t in Expand(p, s, Order(p, s.value))
    ensures WalkedTo(p, owner, d + 1, t)
  {
    ExpandExact(p, s, Order(p, s.value), t);
    var n :| n in Order(p, s.value) && Enter(p, s.value, n) == Some(t.value) && t.path == s.path + [n];
    WalkSnoc(p, owner, s.path, n);
  }

  lemma ExpandAllSound(p: Program, owner: ValueType, d: nat, states: seq<State>)
    requires forall s <- states :: WalkedTo(p, owner, d, s)
    ensures forall t <- ExpandAll(p, states) :: WalkedTo(p, owner, d + 1, t)
  {
    forall t <- ExpandAll(p, states) ensures WalkedTo(p, owner, d + 1, t) {
      ExpandAllExact(p, states, t);
      var s :| s in states && t in Expand(p, s, Order(p, s.value));
      ExpandSound(p, owner, d, s, t);
    }
  }

  lemma {:induction false} LevelSound(p: Program, owner: ValueType, d: nat)
    ensures forall t <- Level(p, owner, d) :: WalkedTo(p, owner, d, t)
  {
    if d > 0 {
      LevelSound(p, owner, d - 1);
      ExpandAllSound(p, owner, d - 1, Level(p, owner, d - 1));
    }
  }

  lemma StepIsExpanded(p: Program, s: State, n: string)
    requires WellFormed(p) && Enter(p, s.value, n).Some?
    ensures State(Enter(p, s.value, n).value, s.path + [n]) in Expand(p, s, Order(p, s.value))
  {
    assert n in Order(p, s.value);
    ExpandExact(p, s, Order(p, s.value), State(Enter(p, s.value, n).value, s.path + [n]));
  }

  lemma LevelStep(p: Program, owner: ValueType, d: nat, s: State, n: string)
    requires WellFormed(p) && s in Level(p, owner, d) && Enter(p, s.value, n).Some?
    ensures State(Enter(p, s.value, n).value, s.path + [n]) in Level(p, owner, d + 1)
  {
    StepIsExpanded(p, s, n);
    ExpandAllExact(p, Level(p, owner, d), State(Enter(p, s.value, n).value, s.path + [n]));
  }

  lemma {:induction false} LevelComplete(p: Program, owner: ValueType, path: seq<string>)
    requires WellFormed(p) && Walk(p, owner, path).Some?
    ensures State(Walk(p, owner, path).value, path) in Level(p, owner, |path|)
    decreases path
  {
    var d := |path|;
    if d > 0 {
      var n, rest := path[d - 1], path[..d - 1];
      assert path == rest + [n];
      WalkSnoc(p, owner, rest, n);
      LevelComplete(p, owner, rest);
      LevelStep(p, owner, d - 1, State(Walk(p, owner, rest).value, rest), n);
    }
  }

  lemma {:induction false} LevelDistinct(p: Program, owner: ValueType, d: nat)
    requires WellFormed(p)
    ensures DistinctPaths(Level(p, owner, d))
  {
    if d > 0 {
      LevelDistinct(p, owner, d - 1);
      ExpandAllDistinct(p, Level(p, owner, d - 1));
    }
  }

  lemma {:induction false} WalkRank(p: Program, v: ValueType, path: seq<string>, rank: string -> nat)
    requires WellFormed(p) && Acyclic(p, rank) && Walk(p, v, path).Some?
    requires v.StructValue? && v.name in p.structs
    ensures var w := Walk(p, v, path).value; w.StructValue? && rank(w.name) + |path| <= rank(v.name)
    decreases path
  {
    if path != [] {
      WalkRank(p, Enter(p, v, path[0]).value, path[1..], rank);
    }
  }

  lemma LevelOne(p: Program, owner: ValueType)
    ensures Level(p, owner, 1) == Expand(p, State(owner, []), Order(p, owner))
  {
    var start := State(owner, []);
    assert Level(p, owner, 0) == [start];
    assert [start][..0] == [];
    assert ExpandAll(p, [start]) == ExpandAll(p, []) + Expand(p, start, Order(p, owner));
  }

  lemma LevelRank(p: Program, owner: ValueType, d: nat, rank: string -> nat)
    requires WellFormed(p) && Acyclic(p, rank) && owner.StructValue? && owner.name in p.structs
    ensures Level(p, owner, d) != [] ==> d <= rank(owner.name)
  {
    if Level(p, owner, d) != [] {
      LevelSound(p, owner, d);
      var level := Level(p, owner, d);
      var s := level[0];
      assert s in level && WalkedTo(p, owner, d, s);
      WalkRank(p, owner, s.path, rank);
    }
  }

  lemma {:induction false} HitsSub(p: Program, name: string, states: seq<State>)
    requires DistinctPaths(states)
    ensures DistinctPaths(Hits(p, name, states))
    ensures forall s :: s in Hits(p, name, states) <==> s in states && Hit(p, name, s)
  {
    if states != [] {
      var k := |states| - 1;
      HitsSub(p, name, states[..k]);
      assert states == states[..k] + [states[k]];
      var hits := Hits(p, name, states[..k]);
      if Hit(p, name, states[k]) {
        forall s <- hits ensures s.path != states[k].path {
          assert s in states[..k];
        }
        DistinctAppend(hits, [states[k]]);
      }
    }
  }

  ghost predicate RoundExact(p: Program, owner: ValueType, name: string, d: nat, hits: seq<State>) {
    && DistinctPaths(hits)
    && (forall s <- hits :: |s.path| == d && Resolves(p, owner, name, s.path)
                         && Walk(p, owner, s.path) == Some(s.value))
    && (forall q :: Resolves(p, owner, name, q) && |q| == d ==> State(Walk(p, owner, q).value, q) in hits)
  }

  /** The candidates of a round are the resolving paths of its length, each once. */
  lemma HitsExact(p: Program, owner: ValueType, name: string, d: nat)
    requires WellFormed(p) && d >= 1
    ensures RoundExact(p, owner, name, d, Hits(p, name, Level(p, owner, d)))
  {
    var level := Level(p, owner, d);
    LevelDistinct(p, owner, d);
    HitsSub(p, name, level);
    LevelSound(p, owner, d);
    forall q | Resolves(p, owner, name, q) && |q| == d
      ensures State(Walk(p, owner, q).value, q) in Hits(p, name, level)
    {
      LevelComplete(p, owner, q);
    }
  }

  ghost predicate NoneBefore(p: Program, owner: ValueType, name: string, d: nat) {
    forall q :: Resolves(p, owner, name, q) ==> d <= |q|
  }

  function Paths(states: seq<State>): seq<seq<string>> {
    seq(|states|, i requires 0 <= i < |states| => states[i].path)
  }

  lemma NoCandidate(p: Program, owner: ValueType, name: string, d: nat)
    requires RoundExact(p, owner, name, d, []) && NoneBefore(p, owner, name, d)
    ensures NoneBefore(p, owner, name, d + 1)
  {
  }

  lemma OneCandidate(p: Program, owner: ValueType, name: string, d: nat, hits: seq<State>)
    requires RoundExact(p, owner, name, d, hits) && NoneBefore(p, owner, name, d) && |hits| == 1
    ensures IsOutcome(p, owner, name, Found(hits[0].path, DirectKind(p, hits[0].value, name)))
  {
    assert hits[0] in hits;
    var path := hits[0].path;
    forall q | Resolves(p, owner, name, q) ensures q == path || |path| < |q| {
      if |q| == d {
        assert State(Walk(p, owner, q).value, q) in hits;
      }
    }
  }

  lemma SeveralCandidates(p: Program, owner: ValueType, name: string, d: nat, hits: seq<State>)
    requires RoundExact(p, owner, name, d, hits) && NoneBefore(p, owner, name, d) && |hits| > 1
    ensures IsOutcome(p, owner, name, Ambiguous(Paths(hits)))
  {
    var paths := Paths(hits);
    forall q <- paths ensures |q| == d && Resolves(p, owner, name, q) {
      var i :| 0 <= i < |paths| && paths[i] == q;
      assert hits[i] in hits;
    }
    forall r | Resolves(p, owner, name, r) && |r| == d ensures r in paths {
      var i :| 0 <= i < |hits| && hits[i] == State(Walk(p, owner, r).value, r);
      assert paths[i] == r;
    }
  }

  lemma {:induction false} WalkPrefix(p: Program, v: ValueType, path: seq<string>, d: nat)
    requires Walk(p, v, path).Some? && d <= |path|
    ensures Walk(p, v, path[..d]).Some?
    decreases path
  {
    if d > 0 {
      assert path[..d][1..] == path[1..][..d - 1];
      WalkPrefix(p, Enter(p, v, path[0]).value, path[1..], d - 1);
    }
  }

  /** Once a round is empty there is no longer path either. */
  lemma NoDeeperPath(p: Program, owner: ValueType, d: nat)
    requires WellFormed(p) && Level(p, owner, d) == []
    ensures forall q :: d <= |q| ==> Walk(p, owner, q).None?
  {
    forall q | d <= |q| ensures Walk(p, owner, q).None? {
      if Walk(p, owner, q).Some? {
        WalkPrefix(p, owner, q, d);
        LevelComplete(p, owner, q[..d]);
        assert false;
      }
    }
  }

  // ---------------------------------------------------------------------------------------------
  // Consequences
  // ---------------------------------------------------------------------------------------------

  /** The answer does not depend on the order in which member tables are iterated: programs that
      differ in nothing else get the same answer, ambiguous paths being compared as a set. */
  lemma OutcomeIgnoresOrder(p: Program, q: Program, owner: ValueType, name: string, r: Outcome, s: Outcome)
    requires p.methodParent == q.methodParent && p.structs.Keys == q.structs.Keys
    requires forall k <- p.structs :: p.structs[k].members == q.structs[k].members
                                   && p.structs[k].methods == q.structs[k].methods
    requires IsOutcome(p, owner, name, r) && IsOutcome(q, owner, name, s)
    ensures r.NoMember? ==> s.NoMember?
    ensures r.Found? ==> s == r
    ensures r.Ambiguous? ==> s.Ambiguous? && forall path :: path in r.paths <==> path in s.paths
  {
    forall path
      ensures Walk(p, owner, path) == Walk(q, owner, path)
      ensures Resolves(p, owner, name, path) == Resolves(q, owner, name, path)
    {
      WalkIgnoresOrder(p, q, owner, path);
    }
    SameAnswer(p, q, owner, name, r, s);
  }

  lemma SameAnswer(p: Program, q: Program, owner: ValueType, name: string, r: Outcome, s: Outcome)
    requires forall path :: Resolves(p, owner, name, path) == Resolves(q, owner, name, path)
    requires IsOutcome(p, owner, name, r) && IsOutcome(q, owner, name, s)
    requires r.Found? && s.Found? && r.path == s.path ==> r.kind == s.kind
    ensures r.NoMember? ==> s.NoMember?
    ensures r.Found? ==> s == r
    ensures r.Ambiguous? ==> s.Ambiguous? && forall path :: path in r.paths <==> path in s.paths
  {
    if s.Found? {
      assert Resolves(p, owner, name, s.path);
    }
    if s.Ambiguous? {
      assert s.paths[0] in s.paths && s.paths[1] in s.paths && s.paths[0] != s.paths[1];
      assert Resolves(p, owner, name, s.paths[0]) && Resolves(p, owner, name, s.paths[1]);
    }
    if r.Ambiguous? {
      assert r.paths[0] in r.paths && r.paths[1] in r.paths && r.paths[0] != r.paths[1];
      assert Resolves(q, owner, name, r.paths[0]) && Resolves(q, owner, name, r.paths[1]);
    }
  }

  lemma {:induction false} WalkIgnoresOrder(p: Program, q: Program, v: ValueType, path: seq<string>)
    requires p.methodParent == q.methodParent && p.structs.Keys == q.structs.Keys
    requires forall k <- p.structs :: p.structs[k].members == q.structs[k].members
    ensures Walk(p, v, path) == Walk(q, v, path)
    decreases path
  {
    if path != [] && Enter(p, v, path[0]).Some? {
      WalkIgnoresOrder(p, q, Enter(p, v, path[0]).value, path[1..]);
    }
  }

  /** A chain of selectors: the type of the value after each segment of a promoted path. A segment that
      does not resolve to a field is an internal error. */
  method MaterializePromotedPath(p: Program, parent: ValueType, path: seq<string>) returns (r: Option<ValueType>)
    requires WellFormed(p)
    ensures Walk(p, parent, path).Some? ==> r == Walk(p, parent, path)
  {
    var current := parent;
    for i := 0 to |path|
      invariant Walk(p, parent, path).Some? ==> Walk(p, parent, path[..i]) == Some(current)
    {
      if DirectKind(p, current, path[i]) != ValueField {
        MaterializeStep(p, parent, path, i);
        return None;
      }
      var m := p.structs[current.name].members[path[i]];
      if Walk(p, parent, path).Some? {
        MaterializeStep(p, parent, path, i);
      }
      current := Project(p, current, m);
    }
    assert path[..|path|] == path;
    r := Some(current);
  }

  /** A name the owner resolves itself always wins; promotion is tried only when the direct lookup finds
      nothing at all, so an ambiguous method of the owner is not repaired by an embedded field. A member that
      the compiler injects into the type comes last: it is used exactly when no path resolves the name. */
  method LookupMember(p: Program, owner: ValueType, name: string, injected: bool, ghost rank: string -> nat)
      returns (r: Outcome, usesInjected: bool)
    requires WellFormed(p) && Acyclic(p, rank) && owner.StructValue? && owner.name in p.structs
    ensures DirectKind(p, owner, name).NotFound? ==> IsOutcome(p, owner, name, r)
    ensures !DirectKind(p, owner, name).NotFound? ==> r == Found([], DirectKind(p, owner, name))
    ensures usesInjected <==> injected && DirectKind(p, owner, name).NotFound?
                              && forall path :: !Resolves(p, owner, name, path)
  {
    if DirectKind(p, owner, name) != NotFound {
      return Found([], DirectKind(p, owner, name)), false;
    }
    r := LookupPromotedValueMember(p, owner, name, rank);
    usesInjected := r.NoMember? && injected;
    if r.Found? {
      assert Resolves(p, owner, name, r.path);
    } else if r.Ambiguous? {
      assert r.paths[0] in r.paths && Resolves(p, owner, name, r.paths[0]);
    }
  }

  lemma MaterializeStep(p: Program, parent: ValueType, path: seq<string>, i: nat)
    requires i < |path|
    ensures Walk(p, parent, path).Some? ==>
      && Walk(p, parent, path[..i]).Some?
      && DirectKind(p, Walk(p, parent, path[..i]).value, path[i]).ValueField?
      && Walk(p, parent, path[..i + 1]) == Enter(p, Walk(p, parent, path[..i]).value, path[i])
      && Walk(p, parent, path[..i + 1]).Some?
  {
    if Walk(p, parent, path).Some? {
      WalkPrefix(p, parent, path, i);
      WalkPrefix(p, parent, path, i + 1);
      assert path[..i + 1] == path[..i] + [path[i]];
      WalkSnoc(p, parent, path[..i], path[i]);
    }
  }

  /** Looking a member up and lowering the path found never disagree: the lowered receiver is the struct
      value the search looked at, and it resolves the name in the same way. */
  method LookupAndMaterialize(p: Program, owner: ValueType, name: string, injected: bool, ghost rank: string -> nat)
      returns (r: Outcome, receiver: Option<ValueType>)
    requires WellFormed(p) && Acyclic(p, rank) && owner.StructValue? && owner.name in p.structs
    ensures r.Found? ==> receiver.Some? && DirectKind(p, receiver.value, name) == r.kind
    ensures r.Found? ==> receiver == Walk(p, owner, r.path)
  {
    var usesInjected;
    r, usesInjected := LookupMember(p, owner, name, injected, rank);
    receiver := None;
    if r.Found? {
      receiver := MaterializePromotedPath(p, owner, r.path);
    }
  }

  /** Const is never lost along a path, neither that of the owner nor that of an embedded field. */
  lemma {:induction false} ConstIsKept(p: Program, v: ValueType, path: seq<string>, d: nat)
    requires d <= |path| && Walk(p, v, path).Some? && Walk(p, v, path[..d]).Some?
    requires Walk(p, v, path[..d]).value.isConst
    ensures Walk(p, v, path).value.isConst
    decreases path
  {
    if path == [] {
    } else if d == 0 {
      assert path[..0] == [] && path[1..][..0] == [];
      ConstIsKept(p, Enter(p, v, path[0]).value, path[1..], 0);
    } else {
      assert path[..d][1..] == path[1..][..d - 1];
      ConstIsKept(p, Enter(p, v, path[0]).value, path[1..], d - 1);
    }
  }

  /** Segment i of the path is declared const, or read-only outside its struct's own methods. */
  predicate AddsConst(p: Program, v: ValueType, path: seq<string>, i: nat)
    requires i < |path|
  {
    var w := Walk(p, v, path[..i]);
    && w.Some? && w.value.StructValue? && w.value.name in p.structs
    && path[i] in p.structs[w.value.name].members
    && var m := p.structs[w.value.name].members[path[i]];
       m.ty.isConst || (m.access.GetOnly? && p.methodParent != Some(w.value.name))
  }

  /** And nothing else makes the member const: the projected type is const exactly when the owner is, or
      some field on the way is const or read-only here. */
  lemma {:induction false} ConstExactly(p: Program, v: ValueType, path: seq<string>)
    requires Walk(p, v, path).Some?
    ensures Walk(p, v, path).value.isConst
       <==> v.isConst || exists i :: 0 <= i < |path| && AddsConst(p, v, path, i)
    decreases |path|
  {
    if path == [] {
      assert Walk(p, v, path) == Some(v);
    } else {
      var k, n := |path| - 1, path[|path| - 1];
      var rest := path[..k];
      assert path == rest + [n];
      WalkPrefix(p, v, path, k);
      WalkSnoc(p, v, rest, n);
      ConstExactly(p, v, rest);
      forall i | 0 <= i < k ensures AddsConst(p, v, path, i) == AddsConst(p, v, rest, i) {
        assert path[..i] == rest[..i] && path[i] == rest[i];
      }
      assert Walk(p, v, path).value.isConst <==> Walk(p, v, rest).value.isConst || AddsConst(p, v, path, k);
    }
  }
}
