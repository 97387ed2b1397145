/** Placing positional and named call arguments into the order of the formal parameters. */
module CallArgs {
  import opened Wrappers

  /** `value` identifies the argument expression. */
  datatype Arg = Arg(name: Option<string>, value: nat, isRef: bool)

  /** Some formals have no name, such as array indices. */
  datatype Formal = Formal(name: Option<string>, isRef: bool)

  datatype BindError =
    | NamedNotSupported
    | PositionalAfterNamed
    | TooManyArguments
    | UnknownName(name: string)
    | DuplicateName(name: string)
    | Missing(formal: nat)
    | CountMismatch
    | RefMismatch(formal: nat)

  datatype Result<T> = Ok(value: T) | Err(error: BindError)

  predicate HasNamed(args: seq<Arg>) {
    exists i :: 0 <= i < |args| && args[i].name.Some?
  }

  /** The formal a name denotes: when several formals share it, the first. */
  function IndexOf(formals: seq<Formal>, name: string): Option<nat> {
    if formals == [] then None
    else
      var last := |formals| - 1;
      var before := IndexOf(formals[..last], name);
      if before.Some? then before else if formals[last].name == Some(name) then Some(last) else None
  }

  lemma {:induction false} IndexOfIsFirst(formals: seq<Formal>, name: string)
    ensures match IndexOf(formals, name)
            case Some(k) => k < |formals| && formals[k].name == Some(name)
                            && forall j :: 0 <= j < k ==> formals[j].name != Some(name)
            case None => forall j :: 0 <= j < |formals| ==> formals[j].name != Some(name)
  {
    if formals != [] {
      IndexOfIsFirst(formals[..|formals| - 1], name);
    }
  }

  // ---------------------------------------------------------------------------------------------
  // What a correct placement is
  // ---------------------------------------------------------------------------------------------

  /** Where argument i belongs, if anywhere. */
  function Slot(args: seq<Arg>, formals: seq<Formal>, i: nat): Option<nat>
    requires i < |args|
  {
    match args[i].name
    case Some(name) => IndexOf(formals, name)
    case None => if i < |formals| then Some(i) else None
  }

  predicate PositionalFirst(args: seq<Arg>) {
    forall i, j :: 0 <= i < j < |args| && args[i].name.Some? ==> args[j].name.Some?
  }

  predicate AllPlaced(args: seq<Arg>, formals: seq<Formal>) {
    forall i :: 0 <= i < |args| ==> Slot(args, formals, i).Some?
  }

  predicate OnePerSlot(args: seq<Arg>, formals: seq<Formal>) {
    forall i, j :: 0 <= i < j < |args| ==> Slot(args, formals, i) != Slot(args, formals, j)
  }

  predicate Covered(args: seq<Arg>, formals: seq<Formal>, k: nat) {
    exists i :: 0 <= i < |args| && Slot(args, formals, i) == Some(k)
  }

  /** The arguments fill every formal exactly once. */
  predicate Bindable(args: seq<Arg>, formals: seq<Formal>) {
    && PositionalFirst(args) && AllPlaced(args, formals) && OnePerSlot(args, formals)
    && forall k :: 0 <= k < |formals| ==> Covered(args, formals, k)
  }

  lemma SlotInRange(args: seq<Arg>, formals: seq<Formal>, i: nat)
    requires i < |args| && Slot(args, formals, i).Some?
    ensures Slot(args, formals, i).value < |formals|
  {
    if args[i].name.Some? {
      IndexOfIsFirst(formals, args[i].name.value);
    }
  }

  /** As many arguments as formals, none left out: then none is given twice. */
  lemma CoverIsInjective(args: seq<Arg>, formals: seq<Formal>)
    requires AllPlaced(args, formals) && |args| == |formals|
    requires forall k :: 0 <= k < |formals| ==> Covered(args, formals, k)
    ensures OnePerSlot(args, formals)
  {
    forall i, j | 0 <= i < j < |args| ensures Slot(args, formals, i) != Slot(args, formals, j) {
      if Slot(args, formals, i) == Slot(args, formals, j) {
        var slots := Slots(args, formals);
        var others := slots[..j] + slots[j + 1..];
        forall k: nat | k < |formals| ensures k in others {
          assert Covered(args, formals, k);
          var m :| 0 <= m < |args| && Slot(args, formals, m) == Some(k);
          var other := if m == j then i else m;
          assert others[if other < j then other else other - 1] == k;
        }
        CoverNeedsAsMany(others, |formals|);
        assert false;
      }
    }
  }

  function Slots(args: seq<Arg>, formals: seq<Formal>): seq<nat>
    requires AllPlaced(args, formals)
  {
    seq(|args|, i requires 0 <= i < |args| => Slot(args, formals, i).value)
  }

  lemma BindableCounts(args: seq<Arg>, formals: seq<Formal>)
    requires Bindable(args, formals)
    ensures |args| == |formals|
  {
    var slots := Slots(args, formals);
    var givers: seq<nat> := [];
    for k := 0 to |formals|
      invariant |givers| == k
      invariant forall m :: 0 <= m < k ==> givers[m] < |args| && slots[givers[m]] == m
    {
      assert Covered(args, formals, k);
      var i: nat :| i < |args| && Slot(args, formals, i) == Some(k);
      assert slots[i] == k;
      givers := givers + [i];
    }
    forall k: nat | k < |formals| ensures k in slots {
      assert slots[givers[k]] == k;
    }
    CoverNeedsAsMany(slots, |formals|);
    forall i: nat | i < |args| ensures i in givers {
      SlotInRange(args, formals, i);
      assert givers[slots[i]] == i;
    }
    CoverNeedsAsMany(givers, |args|);
  }

  lemma {:induction false} CoverNeedsAsMany(s: seq<nat>, n: nat)
    requires forall k: nat :: k < n ==> k in s
    ensures |s| >= n
    decreases n
  {
    if n > 0 {
      var last: nat := n - 1;
      assert last in s;
      var i :| 0 <= i < |s| && s[i] == last;
      var rest := s[..i] + s[i + 1..];
      forall k: nat | k < n - 1 ensures k in rest {
        assert k in s;
        var j :| 0 <= j < |s| && s[j] == k;
        assert rest[if j < i then j else j - 1] == k;
      }
      CoverNeedsAsMany(rest, n - 1);
    }
  }

  /** Each argument is in its slot and there is nothing else. */
  predicate IsPlacement(args: seq<Arg>, formals: seq<Formal>, ordered: seq<Arg>) {
    && |ordered| == |formals|
    && forall i :: 0 <= i < |args| ==>
         var k := Slot(args, formals, i); k.Some? && k.value < |ordered| && ordered[k.value] == args[i]
  }

  /** Every error that is reported is really there. */
  predicate Justified(args: seq<Arg>, formals: seq<Formal>, e: BindError) {
    match e
    case PositionalAfterNamed => !PositionalFirst(args)
    case TooManyArguments => exists i :: |formals| <= i < |args| && args[i].name.None?
    case UnknownName(n) =>
      && (exists i :: 0 <= i < |args| && args[i].name == Some(n))
      && forall k :: 0 <= k < |formals| ==> formals[k].name != Some(n)
    case DuplicateName(n) =>
      exists i, j :: 0 <= i < j < |args| && args[j].name == Some(n) && Slot(args, formals, i) == IndexOf(formals, n)
    case Missing(k) => k < |formals| && !Covered(args, formals, k)
    case _ => false
  }

  // ---------------------------------------------------------------------------------------------
  // The algorithm
  // ---------------------------------------------------------------------------------------------

  predicate InSlot(args: seq<Arg>, formals: seq<Formal>, sources: seq<Option<nat>>, j: nat)
    requires j < |args|
  {
    var k := Slot(args, formals, j);
    k.Some? && k.value < |sources| && sources[k.value] == Some(j)
  }

  predicate FromArg(args: seq<Arg>, formals: seq<Formal>, i: nat, sources: seq<Option<nat>>, k: nat)
    requires i <= |args| && k < |sources|
  {
    sources[k].Some? ==> sources[k].value < i && Slot(args, formals, sources[k].value) == Some(k)
  }

  /** `sources[k]` is the argument in slot k, if there is one. After i arguments each is in its slot. */
  ghost predicate Placed(args: seq<Arg>, formals: seq<Formal>, i: nat, sources: seq<Option<nat>>)
    requires i <= |args|
  {
    && |sources| == |formals|
    && (forall j, l :: 0 <= j < l < i && args[j].name.Some? ==> args[l].name.Some?)
    && (forall j: nat :: j < i ==> InSlot(args, formals, sources, j))
    && (forall k: nat :: k < |sources| ==> FromArg(args, formals, i, sources, k))
  }

  ghost predicate Holds(args: seq<Arg>, sources: seq<Option<nat>>, ordered: seq<Option<Arg>>) {
    && |ordered| == |sources|
    && forall k :: 0 <= k < |sources| ==> match sources[k]
         case None => ordered[k].None?
         case Some(j) => j < |args| && ordered[k] == Some(args[j])
  }

  method BuildIndexByName(formals: seq<Formal>) returns (indexByName: map<string, nat>)
    ensures forall n :: IndexOf(formals, n) == if n in indexByName then Some(indexByName[n]) else None
  {
    indexByName := map[];
    for i := 0 to |formals|
      invariant forall n :: IndexOf(formals[..i], n) == if n in indexByName then Some(indexByName[n]) else None
    {
      assert formals[..i + 1][..i] == formals[..i];
      var name := formals[i].name;
      if name.Some? && name.value !in indexByName {
        indexByName := indexByName[name.value := i];
      }
    }
    assert formals[..|formals|] == formals;
  }

  lemma PlaceNext(args: seq<Arg>, formals: seq<Formal>, i: nat, sources: seq<Option<nat>>, k: nat)
    requires i < |args| && Placed(args, formals, i, sources)
    requires args[i].name.None? ==> AllPositional(args, i)
    requires Slot(args, formals, i) == Some(k) && k < |sources| && sources[k].None?
    ensures Placed(args, formals, i + 1, sources[k := Some(i)])
  {
    var after, next := sources[k := Some(i)], i + 1;
    forall j: nat | j < next ensures InSlot(args, formals, after, j) {
      assert j < i ==> InSlot(args, formals, sources, j);
    }
    forall m: nat | m < |after| ensures FromArg(args, formals, next, after, m) {
      assert FromArg(args, formals, i, sources, m);
    }
  }

  ghost predicate AllPositional(args: seq<Arg>, i: nat)
    requires i <= |args|
  {
    forall j :: 0 <= j < i ==> args[j].name.None?
  }

  lemma MixedOrder(args: seq<Arg>, formals: seq<Formal>, i: nat, j: nat)
    requires i < j < |args| && args[i].name.Some? && args[j].name.None?
    ensures !Bindable(args, formals) && Justified(args, formals, PositionalAfterNamed)
  {
  }

  /** Argument i has no slot. */
  lemma Misplaced(args: seq<Arg>, formals: seq<Formal>, i: nat)
    requires i < |args| && Slot(args, formals, i).None?
    ensures !Bindable(args, formals)
    ensures Justified(args, formals, if args[i].name.None? then TooManyArguments else UnknownName(args[i].name.value))
  {
    if args[i].name.Some? {
      IndexOfIsFirst(formals, args[i].name.value);
    }
  }

  lemma Occupied(args: seq<Arg>, formals: seq<Formal>, i: nat, sources: seq<Option<nat>>, k: nat)
    requires i < |args| && Placed(args, formals, i, sources) && args[i].name.Some?
    requires Slot(args, formals, i) == Some(k) && k < |sources| && sources[k].Some?
    ensures !Bindable(args, formals) && Justified(args, formals, DuplicateName(args[i].name.value))
  {
    assert FromArg(args, formals, i, sources, k);
    assert Slot(args, formals, sources[k].value) == Slot(args, formals, i);
  }

  /** The slot of argument i: positional arguments are counted, named ones looked up. */
  method FindSlot(args: seq<Arg>, formals: seq<Formal>, indexByName: map<string, nat>, i: nat, positionalCount: nat,
      seenNamedArg: bool, ghost firstNamed: nat) returns (r: Result<nat>)
    requires i < |args|
    requires forall n :: IndexOf(formals, n) == if n in indexByName then Some(indexByName[n]) else None
    requires if seenNamedArg then firstNamed < i && args[firstNamed].name.Some? else positionalCount == i
    ensures r.Ok? ==> Slot(args, formals, i) == Some(r.value) && r.value < |formals|
    ensures r.Ok? && args[i].name.None? ==> !seenNamedArg
    ensures r.Err? ==> Justified(args, formals, r.error) && !Bindable(args, formals)
  {
    if args[i].name.None? {
      if seenNamedArg {
        MixedOrder(args, formals, firstNamed, i);
        return Err(PositionalAfterNamed);
      }
      if positionalCount >= |formals| {
        Misplaced(args, formals, i);
        return Err(TooManyArguments);
      }
      r := Ok(positionalCount);
    } else {
      var name := args[i].name.value;
      if name !in indexByName {
        Misplaced(args, formals, i);
        return Err(UnknownName(name));
      }
      IndexOfIsFirst(formals, name);
      r := Ok(indexByName[name]);
    }
  }

  method PlaceArgs(args: seq<Arg>, formals: seq<Formal>)
      returns (r: Result<seq<Option<Arg>>>, ghost sources: seq<Option<nat>>)
    ensures r.Ok? ==> Placed(args, formals, |args|, sources) && Holds(args, sources, r.value)
    ensures r.Err? ==> Justified(args, formals, r.error) && !Bindable(args, formals)
  {
    var indexByName := BuildIndexByName(formals);
    var ordered: seq<Option<Arg>> := seq(|formals|, _ => None);
    sources := seq(|formals|, _ => None);
    var positionalCount, seenNamedArg := 0, false;
    ghost var firstNamed: nat := 0;
    for i := 0 to |args|
      invariant Placed(args, formals, i, sources) && Holds(args, sources, ordered)
      invariant seenNamedArg ==> firstNamed < i && args[firstNamed].name.Some?
      invariant !seenNamedArg ==> positionalCount == i && AllPositional(args, i)
    {
      var slot := FindSlot(args, formals, indexByName, i, positionalCount, seenNamedArg, firstNamed);
      if slot.Err? {
        return Err(slot.error), sources;
      }
      if args[i].name.None? {
        assert FromArg(args, formals, i, sources, slot.value);
        positionalCount := positionalCount + 1;
      } else {
        if ordered[slot.value].Some? {
          Occupied(args, formals, i, sources, slot.value);
          return Err(DuplicateName(args[i].name.value)), sources;
        }
        if !seenNamedArg {
          seenNamedArg, firstNamed := true, i;
        }
      }
      PlaceNext(args, formals, i, sources, slot.value);
      ordered, sources := ordered[slot.value := Some(args[i])], sources[slot.value := Some(i)];
    }
    r := Ok(ordered);
  }

  method RequireAll(ordered: seq<Option<Arg>>) returns (r: Result<seq<Arg>>)
    ensures r.Ok? ==> |r.value| == |ordered| && forall k :: 0 <= k < |ordered| ==> ordered[k] == Some(r.value[k])
    ensures r.Err? ==> r.error.Missing? && r.error.formal < |ordered| && ordered[r.error.formal].None?
  {
    var full: seq<Arg> := [];
    for i := 0 to |ordered|
      invariant |full| == i && forall k :: 0 <= k < i ==> ordered[k] == Some(full[k])
    {
      if ordered[i].None? {
        return Err(Missing(i));
      }
      full := full + [ordered[i].value];
    }
    r := Ok(full);
  }

  method CollectOrderedCallArgs(args: seq<Arg>, formals: seq<Formal>, allowNamed: bool) returns (r: Result<seq<Arg>>)
    ensures !HasNamed(args) ==> r == Ok(args)
    ensures HasNamed(args) && !allowNamed ==> r == Err(NamedNotSupported)
    ensures HasNamed(args) && allowNamed ==> (r.Ok? <==> Bindable(args, formals))
    ensures HasNamed(args) && r.Ok? ==> IsPlacement(args, formals, r.value) && multiset(r.value) == multiset(args)
    ensures HasNamed(args) && allowNamed && r.Err? ==> Justified(args, formals, r.error)
  {
    if args == [] {
      return Ok(args);
    }
    var hasNamedArgs := false;
    for i := 0 to |args|
      invariant hasNamedArgs <==> exists j :: 0 <= j < i && args[j].name.Some?
    {
      if args[i].name.Some? {
        hasNamedArgs := true;
      }
    }
    if !hasNamedArgs {
      return Ok(args);
    }
    if !allowNamed {
      return Err(NamedNotSupported);
    }
    var ordered, sources := PlaceArgs(args, formals);
    if ordered.Err? {
      return Err(ordered.error);
    }
    r := RequireAll(ordered.value);
    if r.Err? {
      NotGiven(args, formals, sources, r.error.formal);
    } else {
      AllGiven(args, formals, sources, r.value);
      PlacementIsPermutation(args, formals, r.value);
    }
  }

  lemma NotGiven(args: seq<Arg>, formals: seq<Formal>, sources: seq<Option<nat>>, k: nat)
    requires Placed(args, formals, |args|, sources) && k < |sources| && sources[k].None?
    ensures !Covered(args, formals, k)
  {
    forall j: nat | j < |args| ensures Slot(args, formals, j) != Some(k) {
      assert InSlot(args, formals, sources, j);
    }
  }

  lemma AllGiven(args: seq<Arg>, formals: seq<Formal>, sources: seq<Option<nat>>, ordered: seq<Arg>)
    requires Placed(args, formals, |args|, sources) && |ordered| == |sources|
    requires forall k :: 0 <= k < |sources| ==>
      sources[k].Some? && sources[k].value < |args| && ordered[k] == args[sources[k].value]
    ensures Bindable(args, formals) && IsPlacement(args, formals, ordered)
  {
    forall k | 0 <= k < |formals| ensures Covered(args, formals, k) {
      assert FromArg(args, formals, |args|, sources, k);
    }
    forall i: nat, j: nat | i < j < |args| ensures Slot(args, formals, i) != Slot(args, formals, j) {
      assert InSlot(args, formals, sources, i) && InSlot(args, formals, sources, j);
    }
    forall i: nat | i < |args|
      ensures var k := Slot(args, formals, i); k.Some? && k.value < |ordered| && ordered[k.value] == args[i]
    {
      assert InSlot(args, formals, sources, i);
    }
  }

  // ---------------------------------------------------------------------------------------------
  // Placement loses nothing, adds nothing, and does not depend on the order of named arguments
  // ---------------------------------------------------------------------------------------------

  lemma PlacementIsPermutation(args: seq<Arg>, formals: seq<Formal>, ordered: seq<Arg>)
    requires Bindable(args, formals) && IsPlacement(args, formals, ordered)
    ensures multiset(ordered) == multiset(args)
  {
    BindableCounts(args, formals);
    var slots := Slots(args, formals);
    forall i: nat | i < |args| ensures Moved(args, ordered, slots, i) {
      assert slots[i] == Slot(args, formals, i).value;
    }
    Permuted(args, ordered, slots);
  }

  predicate Moved<T(==)>(a: seq<T>, b: seq<T>, slot: seq<nat>, i: nat)
    requires i < |a| == |slot|
  {
    slot[i] < |b| && b[slot[i]] == a[i]
  }

  lemma {:induction false} Permuted<T>(a: seq<T>, b: seq<T>, slot: seq<nat>)
    requires |a| == |b| == |slot|
    requires forall i: nat :: i < |a| ==> Moved(a, b, slot, i)
    requires forall i, j :: 0 <= i < j < |a| ==> slot[i] != slot[j]
    ensures multiset(b) == multiset(a)
    decreases |a|
  {
    if |a| > 0 {
      var n := |a| - 1;
      assert Moved(a, b, slot, n);
      var rest := b[slot[n] := b[n]][..n];
      var slots := seq(n, i requires 0 <= i < n => if slot[i] == n then slot[n] else slot[i]);
      forall i: nat | i < n ensures Moved(a[..n], rest, slots, i) {
        assert Moved(a, b, slot, i);
      }
      Permuted(a[..n], rest, slots);
      SplitLast(a);
      TakeOut(b, slot[n]);
    }
  }

  lemma TakeOut<T>(b: seq<T>, k: nat)
    requires k < |b|
    ensures multiset(b) == multiset(b[k := b[|b| - 1]][..|b| - 1]) + multiset{b[k]}
  {
    var n := |b| - 1;
    var moved := b[k := b[n]];
    SplitLast(moved);
    assert moved[n] == b[n];
    assert multiset(moved) == multiset(b) - multiset{b[k]} + multiset{b[n]};
  }

  lemma SplitLast<T>(s: seq<T>)
    requires s != []
    ensures multiset(s) == multiset(s[..|s| - 1]) + multiset{s[|s| - 1]}
  {
    assert s == s[..|s| - 1] + [s[|s| - 1]];
  }

  /** The same call with its named arguments in another order: the first p arguments are positional and
      the same, the others named. */
  ghost predicate SameCall(args: seq<Arg>, other: seq<Arg>, p: nat) {
    && p <= |args| && p <= |other|
    && (forall i :: 0 <= i < p ==> args[i] == other[i] && args[i].name.None?)
    && (forall i :: p <= i < |args| ==> args[i].name.Some?)
    && (forall i :: p <= i < |other| ==> other[i].name.Some?)
    && multiset(args[p..]) == multiset(other[p..])
  }

  lemma FindArg(args: seq<Arg>, other: seq<Arg>, p: nat, formals: seq<Formal>, i: nat) returns (j: nat)
    requires SameCall(args, other, p) && i < |args|
    ensures j < |other| && other[j] == args[i] && Slot(other, formals, j) == Slot(args, formals, i)
  {
    if i < p {
      j := i;
    } else {
      assert args[p..][i - p] in multiset(args[p..]);
      assert args[i] in other[p..];
      var k :| 0 <= k < |other[p..]| && other[p..][k] == args[i];
      j := p + k;
    }
  }

  lemma SameLength(args: seq<Arg>, other: seq<Arg>, p: nat)
    requires SameCall(args, other, p)
    ensures |args| == |other|
  {
    assert |multiset(args[p..])| == |args| - p && |multiset(other[p..])| == |other| - p;
  }

  lemma ReorderedIsBindable(args: seq<Arg>, other: seq<Arg>, p: nat, formals: seq<Formal>)
    requires SameCall(args, other, p) && Bindable(args, formals)
    ensures Bindable(other, formals)
  {
    SameLength(args, other, p);
    BindableCounts(args, formals);
    forall i: nat | i < |other| ensures Slot(other, formals, i).Some? {
      var j := FindArg(other, args, p, formals, i);
    }
    forall k | 0 <= k < |formals| ensures Covered(other, formals, k) {
      assert Covered(args, formals, k);
      var i: nat :| i < |args| && Slot(args, formals, i) == Some(k);
      var j := FindArg(args, other, p, formals, i);
    }
    CoverIsInjective(other, formals);
  }

  /** The order of the named arguments is irrelevant: both calls bind or neither does, and to the same. */
  lemma NamedOrderIsIrrelevant(args: seq<Arg>, other: seq<Arg>, p: nat, formals: seq<Formal>)
    requires SameCall(args, other, p)
    ensures Bindable(args, formals) <==> Bindable(other, formals)
    ensures forall o, q :: Bindable(args, formals) && IsPlacement(args, formals, o) && IsPlacement(other, formals, q)
                           ==> o == q
  {
    if Bindable(args, formals) {
      ReorderedIsBindable(args, other, p, formals);
    }
    if Bindable(other, formals) {
      ReorderedIsBindable(other, args, p, formals);
    }
    forall o, q | Bindable(args, formals) && IsPlacement(args, formals, o) && IsPlacement(other, formals, q)
      ensures o == q
    {
      forall k | 0 <= k < |o| ensures o[k] == q[k] {
        assert Covered(args, formals, k);
        var i: nat :| i < |args| && Slot(args, formals, i) == Some(k);
        var j := FindArg(args, other, p, formals, i);
      }
    }
  }

  /** Binding checks the count, which matters for calls without named arguments, and the `ref` marks. */
  method BindCallArgs(args: seq<Arg>, formals: seq<Formal>, allowNamed: bool) returns (r: Result<seq<Arg>>)
    ensures !HasNamed(args) ==> (r.Ok? <==> |args| == |formals| && RefsMatch(args, formals))
    ensures !HasNamed(args) && r.Ok? ==> r.value == args
    ensures HasNamed(args) ==> (r.Ok? <==> allowNamed && Bindable(args, formals) && NamedRefsMatch(args, formals))
    ensures r.Ok? ==> |r.value| == |formals| && RefsMatch(r.value, formals) && multiset(r.value) == multiset(args)
    ensures HasNamed(args) && r.Ok? ==> IsPlacement(args, formals, r.value)
  {
    r := CollectOrderedCallArgs(args, formals, allowNamed);
    if r.Err? {
      return;
    }
    var ordered := r.value;
    if HasNamed(args) {
      RefsOfPlacement(args, formals, ordered);
    }
    if |ordered| != |formals| {
      return Err(CountMismatch);
    }
    for i := 0 to |formals|
      invariant forall k :: 0 <= k < i ==> ordered[k].isRef == formals[k].isRef
    {
      if ordered[i].isRef != formals[i].isRef {
        return Err(RefMismatch(i));
      }
    }
  }

  predicate RefsMatch(ordered: seq<Arg>, formals: seq<Formal>) {
    |ordered| == |formals| && forall k :: 0 <= k < |formals| ==> ordered[k].isRef == formals[k].isRef
  }

  /** Every argument carries the `ref` mark of the formal it denotes. */
  predicate NamedRefsMatch(args: seq<Arg>, formals: seq<Formal>)
    requires Bindable(args, formals)
  {
    forall i :: 0 <= i < |args| ==> var k := Slot(args, formals, i).value;
      k < |formals| && args[i].isRef == formals[k].isRef
  }

  lemma RefsOfPlacement(args: seq<Arg>, formals: seq<Formal>, ordered: seq<Arg>)
    requires Bindable(args, formals) && IsPlacement(args, formals, ordered)
    ensures RefsMatch(ordered, formals) <==> NamedRefsMatch(args, formals)
  {
    if NamedRefsMatch(args, formals) {
      forall k | 0 <= k < |formals| ensures ordered[k].isRef == formals[k].isRef {
        assert Covered(args, formals, k);
      }
    }
  }
}
