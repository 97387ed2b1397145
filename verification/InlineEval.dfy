/** Memoised evaluation of top-level inline constants across modules, with cycle detection. */
module InlineEval {
  import opened Wrappers

  datatype Decl = Decl(unit: string, index: nat)

  /** How a name in an initialiser was resolved: to an earlier definition of the same module body, or to
      an inline of some module that has to be required. */
  datatype Ref = Local(index: nat) | Global(decl: Decl)

  datatype Stmt = VarDef(isInline: bool, refs: seq<Ref>) | OtherStmt

  /** `define` is the rest of the analysis of a definition once the values of its names are known (None
      for the name of a run-time variable): typing, and for inlines constant folding. None rejects it. */
  datatype Program<!V> = Program(units: map<string, seq<Stmt>>, define: (Decl, seq<Option<V>>) -> Option<V>)

  predicate IsDef<V>(p: Program<V>, d: Decl) {
    d.unit in p.units && d.index < |p.units[d.unit]| && p.units[d.unit][d.index].VarDef?
  }

  predicate IsInline<V>(p: Program<V>, d: Decl) {
    IsDef(p, d) && p.units[d.unit][d.index].isInline
  }

  function Refs<V>(p: Program<V>, d: Decl): seq<Ref>
    requires IsDef(p, d)
  {
    p.units[d.unit][d.index].refs
  }

  predicate RefResolved<V>(p: Program<V>, d: Decl, r: Ref) {
    match r
    case Local(j) => j < d.index && IsDef(p, Decl(d.unit, j))
    case Global(t) => IsInline(p, t)
  }

  predicate RefsResolved<V>(p: Program<V>, d: Decl, refs: seq<Ref>) {
    forall k :: 0 <= k < |refs| ==> RefResolved(p, d, refs[k])
  }

  /** Guaranteed by name resolution. */
  ghost predicate Resolved<V>(p: Program<V>) {
    forall d :: IsDef(p, d) ==> RefsResolved(p, d, Refs(p, d))
  }

  function Decls<V>(p: Program<V>): set<Decl> {
    set u, i | u in p.units && 0 <= i < |p.units[u]| :: Decl(u, i)
  }

  // ---------------------------------------------------------------------------------------------
  // Evaluation without memo, order or active set
  // ---------------------------------------------------------------------------------------------

  /** The value of d when at most n module boundaries are crossed on the way. Only what d refers to,
      directly or not, matters. */
  ghost function Value<V>(p: Program<V>, d: Decl, n: nat): Option<V>
    requires Resolved(p) && IsDef(p, d)
    decreases n, d.index, 1, 0
  {
    var args := Args(p, d, Refs(p, d), n);
    if args.None? then None else p.define(d, args.value)
  }

  ghost function Args<V>(p: Program<V>, d: Decl, refs: seq<Ref>, n: nat): Option<seq<Option<V>>>
    requires Resolved(p) && RefsResolved(p, d, refs)
    decreases n, d.index, 0, |refs|
  {
    if refs == [] then Some([])
    else
      var before := Args(p, d, refs[..|refs| - 1], n);
      if before.None? then None
      else match refs[|refs| - 1]
        case Local(j) =>
          var e := Decl(d.unit, j);
          if !IsInline(p, e) then Some(before.value + [None])
          else if Value(p, e, n).None? then None
          else Some(before.value + [Value(p, e, n)])
        case Global(t) =>
          if n == 0 || Value(p, t, n - 1).None? then None
          else Some(before.value + [Value(p, t, n - 1)])
  }

  lemma {:induction false} ValueMonotone<V>(p: Program<V>, d: Decl, n: nat, m: nat)
    requires Resolved(p) && IsDef(p, d) && n <= m && Value(p, d, n).Some?
    ensures Value(p, d, m) == Value(p, d, n)
    decreases n, d.index, 1, 0
  {
    ArgsMonotone(p, d, Refs(p, d), n, m);
  }

  lemma {:induction false} ArgsMonotone<V>(p: Program<V>, d: Decl, refs: seq<Ref>, n: nat, m: nat)
    requires Resolved(p) && RefsResolved(p, d, refs) && n <= m && Args(p, d, refs, n).Some?
    ensures Args(p, d, refs, m) == Args(p, d, refs, n)
    decreases n, d.index, 0, |refs|
  {
    if refs != [] {
      ArgsMonotone(p, d, refs[..|refs| - 1], n, m);
      match refs[|refs| - 1]
      case Local(j) =>
        if IsInline(p, Decl(d.unit, j)) {
          ValueMonotone(p, Decl(d.unit, j), n, m);
        }
      case Global(t) => ValueMonotone(p, t, n - 1, m - 1);
    }
  }

  /** What the value of a definition is made of: its own rest of the analysis on the values of its names, in
      order, where a run-time variable has none. */
  lemma ValueFromNames<V>(p: Program<V>, d: Decl, n: nat)
    requires Resolved(p) && IsDef(p, d) && Value(p, d, n).Some?
    ensures exists args: seq<Option<V>> ::
      && |args| == |Refs(p, d)| && Value(p, d, n) == p.define(d, args)
      && forall k :: 0 <= k < |args| ==> NameValue(p, d, Refs(p, d)[k], n, args[k])
  {
    NamesHaveValues(p, d, Refs(p, d), n);
  }

  ghost predicate NameValue<V>(p: Program<V>, d: Decl, r: Ref, n: nat, arg: Option<V>)
    requires Resolved(p) && RefResolved(p, d, r)
  {
    match r
    case Local(j) =>
      if p.units[d.unit][j].isInline then arg.Some? && arg == Value(p, Decl(d.unit, j), n) else arg.None?
    case Global(t) => n > 0 && arg.Some? && arg == Value(p, t, n - 1)
  }

  lemma {:induction false} NamesHaveValues<V>(p: Program<V>, d: Decl, refs: seq<Ref>, n: nat)
    requires Resolved(p) && RefsResolved(p, d, refs) && Args(p, d, refs, n).Some?
    ensures var args := Args(p, d, refs, n).value;
      |args| == |refs| && forall k :: 0 <= k < |args| ==> NameValue(p, d, refs[k], n, args[k])
    decreases |refs|
  {
    if refs != [] {
      var m := |refs| - 1;
      NamesHaveValues(p, d, refs[..m], n);
    }
  }

  /** Evaluations of any depth agree. */
  lemma ArgsAgree<V>(p: Program<V>, d: Decl, refs: seq<Ref>, n: nat, m: nat)
    requires Resolved(p) && RefsResolved(p, d, refs) && Args(p, d, refs, n).Some? && Args(p, d, refs, m).Some?
    ensures Args(p, d, refs, n) == Args(p, d, refs, m)
  {
    if n <= m {
      ArgsMonotone(p, d, refs, n, m);
    } else {
      ArgsMonotone(p, d, refs, m, n);
    }
  }

  // ---------------------------------------------------------------------------------------------
  // Dependency cycles
  // ---------------------------------------------------------------------------------------------

  predicate DependsOn<V>(p: Program<V>, d: Decl, e: Decl) {
    IsDef(p, d) && IsInline(p, e) && ((e.unit == d.unit && Local(e.index) in Refs(p, d)) || Global(e) in Refs(p, d))
  }

  ghost predicate Chain<V>(p: Program<V>, path: seq<Decl>) {
    forall i :: 0 < i < |path| ==> DependsOn(p, path[i - 1], path[i])
  }

  ghost predicate OnCycle<V>(p: Program<V>, d: Decl) {
    exists path :: |path| >= 2 && path[0] == d && path[|path| - 1] == d && Chain(p, path)
  }

  lemma {:induction false} ArgsNeedValues<V>(p: Program<V>, d: Decl, refs: seq<Ref>, n: nat, r: Ref)
    requires Resolved(p) && RefsResolved(p, d, refs) && Args(p, d, refs, n).Some? && r in refs
    ensures r.Global? ==> n > 0 && Value(p, r.decl, n - 1).Some?
    ensures r.Local? && IsInline(p, Decl(d.unit, r.index)) ==> Value(p, Decl(d.unit, r.index), n).Some?
    decreases |refs|
  {
    var k := |refs| - 1;
    assert refs == refs[..k] + [refs[k]];
    if r in refs[..k] {
      ArgsNeedValues(p, d, refs[..k], n, r);
    }
  }

  /** Following dependencies of something that has a value, the depth falls, or stays and the index falls. */
  lemma {:induction false} AlongChain<V>(p: Program<V>, path: seq<Decl>, n: nat) returns (m: nat)
    requires Resolved(p) && |path| >= 2 && Chain(p, path) && IsDef(p, path[0]) && Value(p, path[0], n).Some?
    ensures var last := path[|path| - 1];
      IsInline(p, last) && Value(p, last, m).Some? && (m < n || (m == n && last.index < path[0].index))
    decreases |path|
  {
    var d, e := path[0], path[1];
    assert DependsOn(p, d, e);
    if Global(e) in Refs(p, d) {
      ArgsNeedValues(p, d, Refs(p, d), n, Global(e));
      m := n - 1;
    } else {
      ArgsNeedValues(p, d, Refs(p, d), n, Local(e.index));
      assert Decl(d.unit, e.index) == e;
      m := n;
    }
    if |path| > 2 {
      assert Chain(p, path[1..]) by {
        forall i | 0 < i < |path[1..]| ensures DependsOn(p, path[1..][i - 1], path[1..][i]) {
          assert DependsOn(p, path[i], path[i + 1]);
        }
      }
      m := AlongChain(p, path[1..], m);
    }
  }

  /** Nothing on a dependency cycle has a value. */
  lemma {:induction false} CyclesHaveNoValue<V>(p: Program<V>, d: Decl, n: nat)
    requires Resolved(p) && IsDef(p, d) && OnCycle(p, d)
    ensures Value(p, d, n).None?
    decreases n
  {
    if Value(p, d, n).Some? {
      var path :| |path| >= 2 && path[0] == d && path[|path| - 1] == d && Chain(p, path);
      var m := AlongChain(p, path, n);
      CyclesHaveNoValue(p, d, m);
      assert false;
    }
  }

  // ---------------------------------------------------------------------------------------------
  // What the evaluator accepts
  // ---------------------------------------------------------------------------------------------

  /** Requiring an inline analyses its module body from the start, so everything defined before it in
      that body must be acceptable too, and so on through the modules those definitions refer to. */
  ghost predicate Acceptable<V>(p: Program<V>, d: Decl, n: nat)
    requires Resolved(p)
    decreases n, 1
  {
    forall j: nat :: j <= d.index && IsDef(p, Decl(d.unit, j)) ==> DefAcceptable(p, Decl(d.unit, j), n)
  }

  ghost predicate DefAcceptable<V>(p: Program<V>, d: Decl, n: nat)
    requires Resolved(p) && IsDef(p, d)
    decreases n, 0
  {
    && Value(p, d, n).Some?
    && forall t :: Global(t) in Refs(p, d) ==> n > 0 && Acceptable(p, t, n - 1)
  }

  lemma {:induction false} AcceptableMonotone<V>(p: Program<V>, d: Decl, n: nat, m: nat)
    requires Resolved(p) && Acceptable(p, d, n) && n <= m
    ensures Acceptable(p, d, m)
    decreases n, 1
  {
    forall j: nat | j <= d.index && IsDef(p, Decl(d.unit, j)) ensures DefAcceptable(p, Decl(d.unit, j), m) {
      DefAcceptableMonotone(p, Decl(d.unit, j), n, m);
    }
  }

  lemma {:induction false} DefAcceptableMonotone<V>(p: Program<V>, d: Decl, n: nat, m: nat)
    requires Resolved(p) && IsDef(p, d) && DefAcceptable(p, d, n) && n <= m
    ensures DefAcceptable(p, d, m)
    decreases n, 0
  {
    ValueMonotone(p, d, n, m);
    forall t | Global(t) in Refs(p, d) ensures m > 0 && Acceptable(p, t, m - 1) {
      AcceptableMonotone(p, t, n - 1, m - 1);
    }
  }

  lemma {:induction false} LeastDepth<V>(p: Program<V>, d: Decl, n: nat) returns (m: nat)
    requires Resolved(p) && Acceptable(p, d, n)
    ensures m <= n && Acceptable(p, d, m) && (m > 0 ==> !Acceptable(p, d, m - 1))
    decreases n
  {
    m := n;
    if n > 0 && Acceptable(p, d, n - 1) {
      m := LeastDepth(p, d, n - 1);
    }
  }

  ghost predicate NoneAcceptable<V>(p: Program<V>, active: set<Decl>, n: nat)
    requires Resolved(p)
  {
    forall a <- active :: !Acceptable(p, a, n)
  }

  /** The depth at which a declaration becomes acceptable separates it from everything active below it. */
  lemma ActiveStaysUnacceptable<V>(p: Program<V>, active: set<Decl>, d: Decl, n: nat) returns (m: nat)
    requires Resolved(p) && Acceptable(p, d, n) && NoneAcceptable(p, active, n)
    ensures Acceptable(p, d, m) && (m > 0 ==> NoneAcceptable(p, active + {d}, m - 1))
  {
    m := LeastDepth(p, d, n);
    if m > 0 {
      forall a | a in active && Acceptable(p, a, m - 1) ensures false {
        AcceptableMonotone(p, a, m - 1, n);
      }
    }
  }

  // ---------------------------------------------------------------------------------------------
  // The evaluation context
  // ---------------------------------------------------------------------------------------------

  /** The inlines bound so far have their values. */
  ghost predicate Bound<V>(p: Program<V>, unit: string, i: nat, bound: map<nat, V>, n: nat)
    requires Resolved(p)
  {
    forall j: nat :: j < i && IsInline(p, Decl(unit, j)) ==> j in bound && Value(p, Decl(unit, j), n) == Some(bound[j])
  }

  ghost predicate PrefixAcceptable<V>(p: Program<V>, unit: string, i: nat, n: nat)
    requires Resolved(p)
  {
    forall j: nat :: j < i && IsDef(p, Decl(unit, j)) ==> DefAcceptable(p, Decl(unit, j), n)
  }

  ghost predicate ArgsAcceptable<V>(p: Program<V>, d: Decl, refs: seq<Ref>, args: seq<Option<V>>, n: nat)
    requires Resolved(p)
  {
    && RefsResolved(p, d, refs)
    && Args(p, d, refs, n) == Some(args)
    && forall t :: Global(t) in refs ==> n > 0 && Acceptable(p, t, n - 1)
  }

  ghost predicate IsArg<V>(p: Program<V>, d: Decl, r: Ref, arg: Option<V>, n: nat)
    requires Resolved(p) && RefResolved(p, d, r)
  {
    match r
    case Local(j) =>
      if IsInline(p, Decl(d.unit, j)) then arg.Some? && Value(p, Decl(d.unit, j), n) == arg else arg.None?
    case Global(t) => n > 0 && arg.Some? && Value(p, t, n - 1) == arg && Acceptable(p, t, n - 1)
  }

  lemma NextArg<V>(p: Program<V>, d: Decl, refs: seq<Ref>, k: nat, args: seq<Option<V>>, arg: Option<V>, n: nat)
    requires Resolved(p) && RefsResolved(p, d, refs) && k < |refs| && ArgsAcceptable(p, d, refs[..k], args, n)
    requires IsArg(p, d, refs[k], arg, n)
    ensures ArgsAcceptable(p, d, refs[..k + 1], args + [arg], n)
  {
    var longer := refs[..k + 1];
    assert longer[..k] == refs[..k] && longer[k] == refs[k];
  }

  lemma BoundMonotone<V>(p: Program<V>, unit: string, i: nat, bound: map<nat, V>, n: nat, m: nat)
    requires Resolved(p) && n <= m && Bound(p, unit, i, bound, n)
    ensures Bound(p, unit, i, bound, m)
  {
    forall j: nat | j < i && IsInline(p, Decl(unit, j)) ensures Value(p, Decl(unit, j), m) == Some(bound[j]) {
      ValueMonotone(p, Decl(unit, j), n, m);
    }
  }

  lemma PrefixMonotone<V>(p: Program<V>, unit: string, i: nat, n: nat, m: nat)
    requires Resolved(p) && n <= m && PrefixAcceptable(p, unit, i, n)
    ensures PrefixAcceptable(p, unit, i, m)
  {
    forall j: nat | j < i && IsDef(p, Decl(unit, j)) ensures DefAcceptable(p, Decl(unit, j), m) {
      DefAcceptableMonotone(p, Decl(unit, j), n, m);
    }
  }

  lemma ArgsAcceptableMonotone<V>(p: Program<V>, d: Decl, refs: seq<Ref>, args: seq<Option<V>>, n: nat, m: nat)
    requires Resolved(p) && n <= m && ArgsAcceptable(p, d, refs, args, n)
    ensures ArgsAcceptable(p, d, refs, args, m)
  {
    ArgsMonotone(p, d, refs, n, m);
    forall t | Global(t) in refs ensures m > 0 && Acceptable(p, t, m - 1) {
      AcceptableMonotone(p, t, n - 1, m - 1);
    }
  }

  class TopLevelInlineEval<!V> {
    const program: Program<V>
    var values: map<Decl, V>
    var active: set<Decl>
    /** A depth at which everything memoised has its value. */
    ghost var depth: nat

    ghost predicate Valid()
      reads this
    {
      && Resolved(program)
      && forall d <- values :: Evaluated(d, values[d])
    }

    ghost predicate Evaluated(d: Decl, v: V)
      requires Resolved(program)
      reads this
    {
      IsInline(program, d) && Value(program, d, depth) == Some(v) && Acceptable(program, d, depth)
    }

    constructor (p: Program<V>)
      requires Resolved(p)
      ensures program == p && Valid() && active == {} && values == map[]
    {
      program := p;
      values, active, depth := map[], {}, 0;
    }

    ghost method Deepen()
      requires Valid()
      modifies `depth
      ensures Valid() && depth == old(depth) + 1
    {
      forall d <- values ensures Value(program, d, depth + 1) == Some(values[d]) && Acceptable(program, d, depth + 1) {
        ValueMonotone(program, d, depth, depth + 1);
        AcceptableMonotone(program, d, depth, depth + 1);
      }
      depth := depth + 1;
    }

    /** Every exit, by value or by error, leaves `active` as it was; memo entries are never lost; a value
        is the memo-free one; and an acceptable declaration is never refused because of what is active,
        as long as nothing active is acceptable itself. */
    method Require(d: Decl) returns (r: Option<V>)
      requires Valid() && IsInline(program, d) && active <= Decls(program)
      modifies this
      ensures Valid() && active == old(active) && depth >= old(depth)
      ensures forall e <- old(values) :: e in values && values[e] == old(values)[e]
      ensures r.Some? ==> Evaluated(d, r.value) && d in values && values[d] == r.value
      ensures forall n: nat :: Acceptable(program, d, n) && NoneAcceptable(program, active, n) ==> r.Some?
      decreases Decls(program) - active, 0
    {
      if d in values {
        return Some(values[d]);
      }
      if d in active {
        return None;
      }
      active := active + {d};
      r := AnalyzeTopLevelInlineDecl(d);
      active := active - {d};
      assert active == old(active);
      forall n: nat | Acceptable(program, d, n) && NoneAcceptable(program, active, n) ensures r.Some? {
        var m := ActiveStaysUnacceptable(program, active, d, n);
      }
      if r.Some? {
        values := values[d := r.value];
      }
    }

    /** Runs through the owner's module body up to the target, binding and memoising inlines on the way. */
    method AnalyzeTopLevelInlineDecl(target: Decl) returns (r: Option<V>)
      requires Valid() && IsInline(program, target) && target in active && active <= Decls(program)
      modifies this
      ensures Valid() && active == old(active) && depth >= old(depth)
      ensures forall e <- old(values) :: e in values && values[e] == old(values)[e]
      ensures r.Some? ==> Evaluated(target, r.value)
      ensures forall n: nat :: Acceptable(program, target, n) && (n > 0 ==> NoneAcceptable(program, active, n - 1))
                               ==> r.Some?
      decreases Decls(program) - active, 2
    {
      var body := program.units[target.unit];
      var bound: map<nat, V> := map[];
      for i := 0 to target.index + 1
        invariant Valid() && active == old(active) && depth >= old(depth)
        invariant forall e <- old(values) :: e in values && values[e] == old(values)[e]
        invariant Bound(program, target.unit, i, bound, depth)
        invariant PrefixAcceptable(program, target.unit, i, depth)
      {
        if body[i].VarDef? {
          var e := Decl(target.unit, i);
          if body[i].isInline && e in values {
            bound := bound[i := values[e]];
            assert PrefixAcceptable(program, target.unit, i + 1, depth);
          } else {
            ghost var before := depth;
            var v := AnalyzeVarDef(e, bound);
            if v.None? {
              return None;
            }
            BoundMonotone(program, target.unit, i, bound, before, depth);
            PrefixMonotone(program, target.unit, i, before, depth);
            if body[i].isInline {
              bound := bound[i := v.value];
              values := values[e := v.value];
              assert Evaluated(e, v.value);
            }
          }
        }
      }
      r := Some(bound[target.index]);
    }

    /** One definition: its names are evaluated in order, then it is checked and folded. */
    method AnalyzeVarDef(d: Decl, bound: map<nat, V>) returns (r: Option<V>)
      requires Valid() && IsDef(program, d) && active <= Decls(program)
      requires Bound(program, d.unit, d.index, bound, depth)
      modifies this
      ensures Valid() && active == old(active) && depth >= old(depth)
      ensures forall e <- old(values) :: e in values && values[e] == old(values)[e]
      ensures r.Some? ==> Value(program, d, depth) == r && DefAcceptable(program, d, depth)
      ensures forall n: nat :: DefAcceptable(program, d, n) && (n > 0 ==> NoneAcceptable(program, active, n - 1))
                               ==> r.Some?
      decreases Decls(program) - active, 1
    {
      var refs := Refs(program, d);
      var args: seq<Option<V>> := [];
      for k := 0 to |refs|
        invariant Valid() && active == old(active) && depth >= old(depth)
        invariant forall e <- old(values) :: e in values && values[e] == old(values)[e]
        invariant Bound(program, d.unit, d.index, bound, depth)
        invariant ArgsAcceptable(program, d, refs[..k], args, depth)
      {
        ghost var before := depth;
        match refs[k]
        case Local(j) =>
          var v := if IsInline(program, Decl(d.unit, j)) then Some(bound[j]) else None;
          NextArg(program, d, refs, k, args, v, depth);
          args := args + [v];
        case Global(t) =>
          var v := Require(t);
          if v.None? {
            return None;
          }
          Deepen();
          BoundMonotone(program, d.unit, d.index, bound, before, depth);
          ArgsAcceptableMonotone(program, d, refs[..k], args, before, depth);
          NextArg(program, d, refs, k, args, v, depth);
          args := args + [v];
      }
      assert refs[..|refs|] == refs;
      r := program.define(d, args);
      forall n: nat | DefAcceptable(program, d, n) ensures r.Some? {
        ArgsAgree(program, d, refs, n, depth);
      }
    }
  }

  /** A use of an inline in an analysis of its own. It gets a value exactly when everything its evaluation
      pulls in is acceptable, the value is the memo-free one, and a dependency cycle never gets one. */
  method InlineValue<V>(p: Program<V>, d: Decl) returns (r: Option<V>)
    requires Resolved(p) && IsInline(p, d)
    ensures r.Some? <==> exists n: nat :: Acceptable(p, d, n)
    ensures r.Some? ==> exists n: nat :: Value(p, d, n) == r
    ensures OnCycle(p, d) ==> r.None?
  {
    var context := new TopLevelInlineEval(p);
    r := context.Require(d);
    assert forall n: nat :: Acceptable(p, d, n) ==> r.Some?;
    if r.Some? {
      assert Acceptable(p, d, context.depth) && Value(p, d, context.depth) == r;
      if OnCycle(p, d) {
        CyclesHaveNoValue(p, d, context.depth);
      }
    }
  }

  // ---------------------------------------------------------------------------------------------
  // Cycles that are not dependency cycles
  // ---------------------------------------------------------------------------------------------

  /** Evaluating d requires e, for d itself or for something defined before d in its module. */
  predicate PullsIn<V>(p: Program<V>, d: Decl, e: Decl) {
    exists j | 0 <= j <= d.index :: IsDef(p, Decl(d.unit, j)) && Global(e) in Refs(p, Decl(d.unit, j))
  }

  ghost predicate PullChain<V>(p: Program<V>, path: seq<Decl>) {
    forall i :: 0 < i < |path| ==> PullsIn(p, path[i - 1], path[i])
  }

  lemma {:induction false} AcceptableAlong<V>(p: Program<V>, path: seq<Decl>, n: nat)
    requires Resolved(p) && path != [] && PullChain(p, path) && Acceptable(p, path[0], n)
    ensures n >= |path| - 1 && Acceptable(p, path[|path| - 1], n - (|path| - 1))
    decreases |path|
  {
    if |path| > 1 {
      var d, e, rest := path[0], path[1], path[1..];
      assert PullsIn(p, d, e);
      var j :| 0 <= j <= d.index && IsDef(p, Decl(d.unit, j)) && Global(e) in Refs(p, Decl(d.unit, j));
      assert DefAcceptable(p, Decl(d.unit, j), n);
      assert PullChain(p, rest) by {
        forall i | 0 < i < |rest| ensures PullsIn(p, rest[i - 1], rest[i]) {
          assert PullsIn(p, path[i], path[i + 1]);
        }
      }
      AcceptableAlong(p, rest, n - 1);
    }
  }

  /** A cycle through definitions that merely come earlier in a module body is refused as well. */
  lemma {:induction false} PrefixCyclesAreRefused<V>(p: Program<V>, path: seq<Decl>, n: nat)
    requires Resolved(p) && |path| >= 2 && PullChain(p, path) && path[|path| - 1] == path[0]
    ensures !Acceptable(p, path[0], n)
    decreases n
  {
    if Acceptable(p, path[0], n) {
      AcceptableAlong(p, path, n);
      PrefixCyclesAreRefused(p, path, n - (|path| - 1));
      assert false;
    }
  }

  ghost predicate PullPath<V>(p: Program<V>, path: seq<Decl>, d: Decl, e: Decl) {
    path != [] && PullChain(p, path) && path[0] == d && path[|path| - 1] == e
  }

  /** Everything defined in a module body up to something d pulls in has a value. */
  ghost predicate PulledInValued<V>(p: Program<V>, d: Decl, n: nat)
    requires Resolved(p)
  {
    forall path, e, j: nat :: PullPath(p, path, d, e) && j <= e.index && IsDef(p, Decl(e.unit, j))
                              ==> Value(p, Decl(e.unit, j), n).Some?
  }

  ghost predicate PullsInACycle<V>(p: Program<V>, d: Decl) {
    exists path, loop, e :: PullPath(p, path, d, e) && PullPath(p, loop, e, e) && |loop| >= 2
  }

  /** The exact criterion: an inline can be evaluated when everything pulled in has a value and pulling in
      never comes back to where it was. */
  lemma AcceptableExactly<V>(p: Program<V>, d: Decl)
    requires Resolved(p) && IsInline(p, d)
    ensures (exists n: nat :: Acceptable(p, d, n))
       <==> (exists n: nat :: PulledInValued(p, d, n)) && !PullsInACycle(p, d)
  {
    if accepted: nat :| Acceptable(p, d, accepted) {
      AcceptableImpliesCriterion(p, d, accepted);
      assert exists n: nat :: Acceptable(p, d, n);
    } else if !PullsInACycle(p, d) {
      if valued: nat :| PulledInValued(p, d, valued) {
        CriterionImpliesAcceptable(p, d, valued);
        assert false;
      }
    }
  }

  lemma CriterionImpliesAcceptable<V>(p: Program<V>, d: Decl, n: nat)
    requires Resolved(p) && IsInline(p, d) && PulledInValued(p, d, n) && !PullsInACycle(p, d)
    ensures Acceptable(p, d, n + |Decls(p)|)
  {
    var k := |Decls(p)|;
    if !Acceptable(p, d, n + k) {
      var path := LongChain(p, d, n, k);
      var i, j := Repetition(path, Decls(p));
      SubChain(p, path, 0, i);
      SubChain(p, path, i, j);
      assert false;
    }
  }

  lemma AcceptableImpliesCriterion<V>(p: Program<V>, d: Decl, n: nat)
    requires Resolved(p) && Acceptable(p, d, n)
    ensures PulledInValued(p, d, n) && !PullsInACycle(p, d)
  {
    forall path, e | PullPath(p, path, d, e) ensures Acceptable(p, e, n) {
      AcceptableAlong(p, path, n);
      AcceptableMonotone(p, e, n - (|path| - 1), n);
    }
    forall path, e, j: nat | PullPath(p, path, d, e) && j <= e.index && IsDef(p, Decl(e.unit, j))
      ensures Value(p, Decl(e.unit, j), n).Some?
    {
      assert DefAcceptable(p, Decl(e.unit, j), n);
    }
    forall path, loop, e | PullPath(p, path, d, e) && PullPath(p, loop, e, e) && |loop| >= 2 ensures false {
      PrefixCyclesAreRefused(p, loop, n);
    }
  }

  /** What stays unacceptable although everything pulled in has a value is the start of a long chain. */
  lemma {:induction false} LongChain<V>(p: Program<V>, d: Decl, n: nat, k: nat) returns (path: seq<Decl>)
    requires Resolved(p) && IsInline(p, d) && PulledInValued(p, d, n) && !Acceptable(p, d, n + k)
    ensures |path| == k + 1 && path[0] == d && PullChain(p, path)
    ensures forall i :: 0 <= i < |path| ==> path[i] in Decls(p)
    decreases k
  {
    path := [d];
    if k > 0 {
      var j: nat :| j <= d.index && IsDef(p, Decl(d.unit, j)) && !DefAcceptable(p, Decl(d.unit, j), n + k);
      assert PullPath(p, [d], d, d);
      ValueMonotone(p, Decl(d.unit, j), n, n + k);
      var e :| Global(e) in Refs(p, Decl(d.unit, j)) && !Acceptable(p, e, n + k - 1);
      assert PullsIn(p, d, e);
      assert IsInline(p, e) by {
        assert RefsResolved(p, Decl(d.unit, j), Refs(p, Decl(d.unit, j)));
      }
      forall tail, g | PullPath(p, tail, e, g) ensures PullPath(p, [d] + tail, d, g) {
      }
      var tail := LongChain(p, e, n, k - 1);
      path := [d] + tail;
    }
  }

  lemma SubChain<V>(p: Program<V>, path: seq<Decl>, i: nat, j: nat)
    requires PullChain(p, path) && i <= j < |path|
    ensures PullPath(p, path[i..j + 1], path[i], path[j])
  {
    var part := path[i..j + 1];
    forall k | 0 < k < |part| ensures PullsIn(p, part[k - 1], part[k]) {
      assert PullsIn(p, path[i + k - 1], path[i + k]);
    }
  }

  lemma {:induction false} Repetition<T>(s: seq<T>, within: set<T>) returns (i: nat, j: nat)
    requires |s| > |within| && forall k :: 0 <= k < |s| ==> s[k] in within
    ensures i < j < |s| && s[i] == s[j]
    decreases |s|
  {
    var last := s[|s| - 1];
    if last in s[..|s| - 1] {
      i, j :| 0 <= i < |s| - 1 && s[i] == last && j == |s| - 1;
    } else {
      var rest := s[..|s| - 1];
      forall k | 0 <= k < |rest| ensures rest[k] in within - {last} {
        assert rest[k] == s[k];
      }
      i, j := Repetition(rest, within - {last});
    }
  }

  /** In module a: `inline u = b.y` then `inline x = <constant>`; in module b: `inline y = a.x`. */
  function TwoModules(define: (Decl, seq<Option<int>>) -> Option<int>): Program<int> {
    Program(map["a" := [VarDef(true, [Global(Decl("b", 0))]), VarDef(true, [])],
                "b" := [VarDef(true, [Global(Decl("a", 1))])]],
            define)
  }

  /** x depends on nothing, so it is on no dependency cycle and has a value, yet it is refused as cyclic. */
  lemma ConstantRefusedAsCyclic(define: (Decl, seq<Option<int>>) -> Option<int>, n: nat)
    requires define(Decl("a", 1), []).Some?
    ensures var p, x := TwoModules(define), Decl("a", 1);
      && Resolved(p) && IsInline(p, x)
      && (forall e :: !DependsOn(p, x, e))
      && Value(p, x, 0).Some?
      && !Acceptable(p, x, n)
  {
    var p, x, y := TwoModules(define), Decl("a", 1), Decl("b", 0);
    assert IsDef(p, Decl("a", 0)) && IsInline(p, x) && IsInline(p, y);
    assert Refs(p, Decl("a", 0)) == [Global(y)] && Refs(p, x) == [] && Refs(p, y) == [Global(x)];
    assert Global(y) in Refs(p, Decl("a", 0)) && Global(x) in Refs(p, y);
    assert PullsIn(p, x, y) && PullsIn(p, y, x) by {
      assert Decl("b", 0) == Decl(y.unit, 0) && Decl("a", 0) == Decl(x.unit, 0);
    }
    PrefixCyclesAreRefused(p, [x, y, x], n);
  }
}
