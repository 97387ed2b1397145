/** The query session: which sources are loaded, which module is active, where the cursor is, and what a
    reload invalidates. */
module Sessions {
  import opened Wrappers
  import opened Sequences
  import opened ModuleGraph

  /** Stands for a syntax tree. */
  datatype Tree = Tree(text: string)

  /** `text` is the source the unit was last refreshed with; `collected` says its interface is still held. */
  datatype Unit = Unit(text: string, tree: Option<Tree>, collected: bool)

  type Units = map<string, Unit>

  /** A newline ends a line; a final one starts no further line. */
  function LineCount(text: string): nat {
    if text == "" then 0 else 1 + LineBreaks(text, |text| - 1)
  }

  function LineBreaks(text: string, n: nat): nat
    requires n <= |text|
  {
    if n == 0 then 0 else LineBreaks(text, n - 1) + if text[n - 1] == '\n' then 1 else 0
  }

  function Unlines(lines: seq<string>): string {
    if lines == [] then "" else Unlines(lines[..|lines| - 1]) + lines[|lines| - 1] + "\n"
  }

  lemma {:induction false} LineBreaksAppend(s: string, t: string, n: nat)
    requires |s| <= n <= |s + t|
    ensures LineBreaks(s + t, n) == LineBreaks(s, |s|) + LineBreaks(t, n - |s|)
    decreases n
  {
    if n > |s| {
      LineBreaksAppend(s, t, n - 1);
    } else {
      LineBreaksPrefix(s, t, n);
    }
  }

  lemma {:induction false} LineBreaksPrefix(s: string, t: string, n: nat)
    requires n <= |s|
    ensures LineBreaks(s + t, n) == LineBreaks(s, n)
    decreases n
  {
    if n > 0 {
      LineBreaksPrefix(s, t, n - 1);
    }
  }

  lemma {:induction false} NoLineBreaks(s: string, n: nat)
    requires n <= |s| && '\n' !in s
    ensures LineBreaks(s, n) == 0
    decreases n
  {
    if n > 0 {
      NoLineBreaks(s, n - 1);
    }
  }

  lemma {:induction false} LineBreaksOfLines(lines: seq<string>)
    requires forall l <- lines :: '\n' !in l
    ensures LineBreaks(Unlines(lines), |Unlines(lines)|) == |lines|
    ensures lines != [] ==> Unlines(lines) != "" && Unlines(lines)[|Unlines(lines)| - 1] == '\n'
  {
    if lines != [] {
      var before, last := lines[..|lines| - 1], lines[|lines| - 1];
      LineBreaksOfLines(before);
      OneMoreLine(Unlines(before), last);
    }
  }

  lemma OneMoreLine(s: string, line: string)
    requires '\n' !in line
    ensures var t := s + line + "\n";
      t != "" && t[|t| - 1] == '\n' && LineBreaks(t, |t|) == LineBreaks(s, |s|) + 1
  {
    var w := s + line;
    NoLineBreaks(line, |line|);
    LineBreaksAppend(s, line, |w|);
    LineBreaksPrefix(w, "\n", |w|);
    assert LineBreaks(w + "\n", |w| + 1) == LineBreaks(w + "\n", |w|) + 1;
  }

  /** A text of any lines has that many, and one more if something stands after the last line break. */
  lemma LinesAreCounted(lines: seq<string>, rest: string)
    requires (forall l <- lines :: '\n' !in l) && '\n' !in rest
    ensures LineCount(Unlines(lines) + rest) == |lines| + if rest == "" then 0 else 1
  {
    LineBreaksOfLines(lines);
    CountAfterBreak(Unlines(lines), rest);
  }

  lemma CountAfterBreak(s: string, rest: string)
    requires (s == "" || s[|s| - 1] == '\n') && '\n' !in rest
    ensures LineCount(s + rest) == LineBreaks(s, |s|) + if rest == "" then 0 else 1
  {
    if rest != "" {
      NoLineBreaks(rest, |rest| - 1);
      LineBreaksAppend(s, rest, |s + rest| - 1);
    } else {
      assert s + rest == s;
    }
  }

  // ---------------------------------------------------------------------------------------------
  // Invalidation
  // ---------------------------------------------------------------------------------------------

  /** The module is parsed again, and no module that can reach it keeps its interface. */
  ghost function Invalidated(units: Units, edges: Edges, path: string): Units {
    map m | m in units :: Unit(units[m].text,
                               if m == path then None else units[m].tree,
                               units[m].collected && !Reaches(edges, m, path))
  }

  function Cleared(units: Units, stale: seq<string>): Units {
    map m | m in units :: units[m].(collected := units[m].collected && m !in stale)
  }

  /** Clearing the dependents found after the own edges were dropped is invalidation in the old graph. */
  lemma ClosureIsInvalidated(units: Units, edges: Edges, path: string, known: bool, stale: seq<string>)
    requires known <==> path in units
    requires forall m :: m in stale <==> Reaches(if known then edges[path := []] else edges, m, path)
    ensures Cleared(if known then units[path := units[path].(tree := None)] else units, stale)
         == Invalidated(units, edges, path)
    ensures forall m :: Reaches(edges, m, path) <==> m in stale
  {
    forall m ensures Reaches(edges, m, path) <==> m in stale {
      DroppingOwnEdges(edges, path, m);
    }
  }

  /** Reading a source again: a changed text drops what was derived from it, in that unit alone. */
  function Refreshed(units: Units, path: string, text: string): Unit {
    if path in units && units[path].text == text then units[path] else Unit(text, None, false)
  }

  /** A module other than b that still holds an interface although it can reach b. */
  ghost predicate HeldAbove(units: Units, edges: Edges, b: string, m: string) {
    m in units && m != b && units[m].collected && Reaches(edges, m, b)
  }

  /** Invalidating p leaves no interface that could depend on it, in the graph as it was and without the
      edges out of p, which are dropped first; everything else keeps its interface. */
  lemma NothingStaleAfterInvalidation(units: Units, edges: Edges, p: string, m: string)
    requires m in units
    ensures Invalidated(units, edges, p)[m].collected <==> units[m].collected && !Reaches(edges[p := []], m, p)
    ensures !HeldAbove(Invalidated(units, edges, p), edges, p, m)
  {
    DroppingOwnEdges(edges, p, m);
  }

  /** A source that is read, with the text found there. */
  datatype Read = Read(path: string, text: string)

  function AfterReads(units: Units, rereads: seq<Read>): Units
    decreases |rereads|
  {
    if rereads == [] then units
    else
      var last := rereads[|rereads| - 1];
      var before := AfterReads(units, rereads[..|rereads| - 1]);
      before[last.path := Refreshed(before, last.path, last.text)]
  }

  /** The modules for which some read found another text than the one on record, or none was. */
  function Changed(units: Units, rereads: seq<Read>): set<string>
    decreases |rereads|
  {
    if rereads == [] then {}
    else
      var last := rereads[|rereads| - 1];
      var before := AfterReads(units, rereads[..|rereads| - 1]);
      Changed(units, rereads[..|rereads| - 1])
        + if last.path in before && before[last.path].text == last.text then {} else {last.path}
  }

  predicate Held(units: Units, m: string) {
    m in units && units[m].collected
  }

  /** Reading keeps exactly the interfaces of modules that did not change, whatever they depend on, and their
      trees. */
  lemma {:induction false} ReadsKeepUnchanged(units: Units, rereads: seq<Read>, m: string)
    ensures Held(AfterReads(units, rereads), m) <==> Held(units, m) && m !in Changed(units, rereads)
    ensures var after := AfterReads(units, rereads);
      m in after ==> after[m].tree == if m in units && m !in Changed(units, rereads) then units[m].tree else None
    decreases |rereads|
  {
    if rereads != [] {
      ReadsKeepUnchanged(units, rereads[..|rereads| - 1], m);
    }
  }

  predicate IsLastRead(rereads: seq<Read>, i: nat, m: string) {
    i < |rereads| && rereads[i].path == m && forall j :: i < j < |rereads| ==> rereads[j].path != m
  }

  /** After reading a module has the text that was last read for it. */
  lemma {:induction false} LastReadCounts(units: Units, rereads: seq<Read>, i: nat, m: string)
    requires IsLastRead(rereads, i, m)
    ensures m in AfterReads(units, rereads) && AfterReads(units, rereads)[m].text == rereads[i].text
    decreases |rereads|
  {
    var n := |rereads| - 1;
    if i < n {
      LastReadCounts(units, rereads[..n], i, m);
    }
  }

  /** And one that was not read is as it was. */
  lemma {:induction false} UnreadIsKept(units: Units, rereads: seq<Read>, m: string)
    requires forall r <- rereads :: r.path != m
    ensures m in AfterReads(units, rereads) <==> m in units
    ensures m in units ==> AfterReads(units, rereads)[m] == units[m]
    decreases |rereads|
  {
    if rereads != [] {
      UnreadIsKept(units, rereads[..|rereads| - 1], m);
    }
  }

  predicate SameTexts(u: Units, v: Units) {
    u.Keys == v.Keys && forall m <- u :: u[m].text == v[m].text
  }

  /** What changes depends on the texts alone. */
  lemma {:induction false} ChangesAreOfTexts(u: Units, v: Units, rereads: seq<Read>)
    requires SameTexts(u, v)
    ensures SameTexts(AfterReads(u, rereads), AfterReads(v, rereads)) && Changed(u, rereads) == Changed(v, rereads)
    decreases |rereads|
  {
    if rereads != [] {
      ChangesAreOfTexts(u, v, rereads[..|rereads| - 1]);
    }
  }

  lemma {:induction false} UnchangedTexts(units: Units, rereads: seq<Read>)
    requires forall r <- rereads :: r.path in units && units[r.path].text == r.text
    ensures AfterReads(units, rereads) == units && Changed(units, rereads) == {}
    decreases |rereads|
  {
    if rereads != [] {
      UnchangedTexts(units, rereads[..|rereads| - 1]);
    }
  }

  /** After p is invalidated and any sources are read again, a module above another one, b, holds an interface
      exactly when it did before, cannot reach p, and has not changed itself. Whether b has changed plays no
      part. */
  lemma StaleAfterReload(units: Units, edges: Edges, p: string, rereads: seq<Read>, b: string, m: string)
    ensures HeldAbove(AfterReads(Invalidated(units, edges, p), rereads), edges, b, m)
        <==> HeldAbove(units, edges, b, m) && !Reaches(edges, m, p) && m !in Changed(units, rereads)
  {
    ChangesAreOfTexts(units, Invalidated(units, edges, p), rereads);
    ReadsKeepUnchanged(Invalidated(units, edges, p), rereads, m);
  }

  /** a imports middle, middle imports b. Reloading a after b was edited leaves the interface of middle,
      made from the old b; so does reloading the whole project, with a as its only entry. */
  lemma MiddleModuleStaysStale(oldText: string, newText: string)
    requires oldText != newText
    ensures var edges: Edges := map["a" := ["middle"], "middle" := ["b"], "b" := []];
      var units: Units := map["a" := Unit("", None, true), "middle" := Unit("", None, true),
                              "b" := Unit(oldText, None, true)];
      var rereads := [Read("a", ""), Read("middle", ""), Read("b", newText)];
      && Reaches(edges, "a", "b") && "b" in Changed(units, rereads)
      && HeldAbove(AfterReads(Invalidated(units, edges, "a"), rereads), edges, "b", "middle")
      && HeldAbove(AfterRounds(units, [Round(edges, "a", rereads)]), edges, "b", "middle")
  {
    var edges: Edges := map["a" := ["middle"], "middle" := ["b"], "b" := []];
    var units: Units := map["a" := Unit("", None, true), "middle" := Unit("", None, true),
                            "b" := Unit(oldText, None, true)];
    var rereads := [Read("a", ""), Read("middle", ""), Read("b", newText)];
    assert IsPath(edges, ["a", "middle", "b"], "a", "b") && IsPath(edges, ["middle", "b"], "middle", "b");
    if Reaches(edges, "middle", "a") {
      var path :| IsPath(edges, path, "middle", "a");
      ForwardClosed(edges, {"middle", "b"}, path, "middle", "a");
    }
    UnchangedTexts(units, rereads[..2]);
    assert Changed(units, rereads) == {"b"};
    StaleAfterReload(units, edges, "a", rereads, "b", "middle");
    var round := Round(edges, "a", rereads);
    assert [round][..0] == [] && AfterRounds(units, [round]) == AfterReads(Invalidated(units, edges, "a"), rereads);
  }

  /** The parts of the units that invalidation is about. */
  predicate SameInterfaces(u: Units, v: Units) {
    u.Keys == v.Keys && forall m <- u :: u[m].text == v[m].text && u[m].collected == v[m].collected
  }

  lemma {:induction false} ReadsOfSameInterfaces(u: Units, v: Units, rereads: seq<Read>)
    requires SameInterfaces(u, v)
    ensures SameInterfaces(AfterReads(u, rereads), AfterReads(v, rereads))
    decreases |rereads|
  {
    if rereads != [] {
      ReadsOfSameInterfaces(u, v, rereads[..|rereads| - 1]);
    }
  }

  lemma {:induction false} ReadsAppend(units: Units, first: seq<Read>, second: seq<Read>)
    ensures AfterReads(units, first + second) == AfterReads(AfterReads(units, first), second)
    ensures Changed(units, first + second) == Changed(units, first) + Changed(AfterReads(units, first), second)
    decreases |second|
  {
    if second == [] {
      assert first + second == first;
    } else {
      var k := |second| - 1;
      assert (first + second)[..|first| + k] == first + second[..k];
      ReadsAppend(units, first, second[..k]);
    }
  }

  /** Building the whole project invalidates and reads again for one entry after the other, each time in the
      graph that the earlier ones left. */
  datatype Round = Round(edges: Edges, entry: string, rereads: seq<Read>)

  ghost function AfterRounds(units: Units, rounds: seq<Round>): Units
    decreases |rounds|
  {
    if rounds == [] then units
    else
      var last := rounds[|rounds| - 1];
      AfterReads(Invalidated(AfterRounds(units, rounds[..|rounds| - 1]), last.edges, last.entry), last.rereads)
  }

  function AllReads(rounds: seq<Round>): seq<Read>
    decreases |rounds|
  {
    if rounds == [] then [] else AllReads(rounds[..|rounds| - 1]) + rounds[|rounds| - 1].rereads
  }

  ghost predicate ReachesAnEntry(rounds: seq<Round>, m: string) {
    exists r <- rounds :: Reaches(r.edges, m, r.entry)
  }

  lemma {:induction false} RoundsKeepUnchanged(units: Units, rounds: seq<Round>, m: string)
    ensures SameTexts(AfterRounds(units, rounds), AfterReads(units, AllReads(rounds)))
    ensures Held(AfterRounds(units, rounds), m)
       <==> Held(units, m) && !ReachesAnEntry(rounds, m) && m !in Changed(units, AllReads(rounds))
    decreases |rounds|
  {
    if rounds != [] {
      var k := |rounds| - 1;
      var before, last := rounds[..k], rounds[k];
      var invalidated := Invalidated(AfterRounds(units, before), last.edges, last.entry);
      RoundsKeepUnchanged(units, before, m);
      ChangesAreOfTexts(invalidated, AfterReads(units, AllReads(before)), last.rereads);
      ReadsKeepUnchanged(invalidated, last.rereads, m);
      ReadsAppend(units, AllReads(before), last.rereads);
      assert rounds == before + [last];
      assert ReachesAnEntry(rounds, m) <==> ReachesAnEntry(before, m) || Reaches(last.edges, m, last.entry);
    }
  }

  /** The same over a whole rebuild: a module above b holds an interface exactly when it did before, reached
      none of the entries when their turn came, and has not changed itself. */
  lemma StaleAfterRounds(units: Units, edges: Edges, rounds: seq<Round>, b: string, m: string)
    ensures HeldAbove(AfterRounds(units, rounds), edges, b, m)
       <==> HeldAbove(units, edges, b, m) && !ReachesAnEntry(rounds, m) && m !in Changed(units, AllReads(rounds))
  {
    RoundsKeepUnchanged(units, rounds, m);
  }

  /** The first round meets the graph as it was before; without any round it has not changed. */
  predicate StartsWith(rounds: seq<Round>, before: Edges, after: Edges) {
    before == if rounds == [] then after else rounds[0].edges
  }

  lemma OneMoreRound(start: Units, units: Units, after: Units, rounds: seq<Round>, round: Round)
    requires SameInterfaces(units, AfterRounds(start, rounds))
    requires SameInterfaces(after, AfterReads(Invalidated(units, round.edges, round.entry), round.rereads))
    ensures SameInterfaces(after, AfterRounds(start, rounds + [round]))
  {
    assert (rounds + [round])[..|rounds|] == rounds;
    ReadsOfSameInterfaces(Invalidated(units, round.edges, round.entry),
                          Invalidated(AfterRounds(start, rounds), round.edges, round.entry), round.rereads);
  }

  predicate KeepsHeld(before: Units, after: Units) {
    forall m <- before :: Held(before, m) ==> Held(after, m)
  }

  /** Analysis collects interfaces and leaves all texts as they are. */
  predicate Analysed(before: Units, after: Units) {
    SameTexts(before, after) && KeepsHeld(before, after)
  }

  // ---------------------------------------------------------------------------------------------
  // The active module
  // ---------------------------------------------------------------------------------------------

  /** The module that building the project makes active, when the entries that may be are `offered`. */
  ghost function ActiveChoice(units: set<string>, edges: Edges, offered: seq<string>, desired: string): Option<string>
  {
    if desired in units && InEntrySet(edges, offered, desired) then Some(desired)
    else if offered == [] then None
    else Some(offered[0])
  }

  /** The first entry that is on record. */
  ghost predicate IsFirstOnRecord(entries: seq<string>, units: set<string>, e: string) {
    exists i :: 0 <= i < |entries| && entries[i] == e && e in units
                && forall j :: 0 <= j < i ==> entries[j] !in units
  }

  predicate SomeOnRecord(entries: seq<string>, units: set<string>) {
    exists e <- entries :: e in units
  }

  function Desired(entries: seq<string>, requested: string): string {
    if requested == "" && entries != [] then entries[0] else requested
  }

  /** The desired module is chosen exactly when an offered entry reaches it, so always when it is offered
      itself; otherwise some entry is, unless none is offered. */
  lemma ChoiceIsExact(units: set<string>, edges: Edges, offered: seq<string>, desired: string)
    requires units == edges.Keys && forall e <- offered :: e in units
    ensures ActiveChoice(units, edges, offered, desired) == Some(desired)
       <==> desired in units && InEntrySet(edges, offered, desired)
    ensures desired in offered ==> ActiveChoice(units, edges, offered, desired) == Some(desired)
    ensures ActiveChoice(units, edges, offered, desired).None? <==> offered == []
  {
    forall e <- offered ensures Reaches(edges, e, e) {
      ReachesItself(edges, e);
    }
  }

  /** A project with one entry that loads. Opening a module that does not load makes that entry active. */
  lemma OpeningFallsBack(world: World, roots: seq<string>, entry: string, asked: string)
    requires world.rootsUsable && roots != [] && Loads(world, roots, entry) && !Loads(world, roots, asked)
    requires !world.ends(entry).LimitReached?
    ensures var offered := Offered(world, roots, [entry, asked]);
      offered == [entry] && ActiveChoice({entry}, map[entry := []], offered, asked) == Some(entry)
  {
    assert [entry, asked][1..] == [asked];
    assert OffersFrom(world, roots, [asked]) == [];
    if InEntrySet(map[entry := []], [entry], asked) {
      var path :| IsPath(map[entry := []], path, entry, asked);
      ForwardClosed(map[entry := []], {entry}, path, entry, asked);
    }
  }

  // ---------------------------------------------------------------------------------------------
  // What loading meets
  // ---------------------------------------------------------------------------------------------

  /** How loading a module and what it depends on ends: well; before everything is read, because of an error or
      at a module that does not parse; or with too many errors. `driver`: a file or its place among the roots is
      at fault, not what is written in it. */
  datatype LoadOutcome = Loaded | Failed(driver: bool) | LimitReached

  /** What a call finds outside the session: whether the roots can still be used, the files that can be read,
      which files lie under which roots, and how loading what a module depends on ends. */
  datatype World = World(rootsUsable: bool, files: map<string, string>, under: set<(string, string)>,
                         ends: string -> LoadOutcome)

  function MatchedRoots(world: World, roots: seq<string>, path: string): seq<string> {
    if roots == [] then []
    else
      var last := roots[|roots| - 1];
      MatchedRoots(world, roots[..|roots| - 1], path) + if (path, last) in world.under then [last] else []
  }

  method MatchedModuleRoot(world: World, roots: seq<string>, path: string) returns (root: Option<string>)
    ensures root.Some? <==> |MatchedRoots(world, roots, path)| == 1
  {
    var matches := [];
    for i := 0 to |roots|
      invariant matches == MatchedRoots(world, roots[..i], path)
    {
      assert roots[..i + 1][..i] == roots[..i];
      if (path, roots[i]) in world.under {
        matches := matches + [roots[i]];
      }
    }
    assert roots[..|roots|] == roots;
    root := if |matches| == 1 then Some(matches[0]) else None;
  }

  /** The entry itself can be loaded, whatever becomes of what it depends on. */
  predicate Loads(world: World, roots: seq<string>, path: string) {
    path in world.files && |MatchedRoots(world, roots, path)| == 1
  }

  predicate IsUnder(world: World, roots: seq<string>, path: string, i: nat) {
    i < |roots| && (path, roots[i]) in world.under
  }

  ghost predicate IsOnlyUnder(world: World, roots: seq<string>, path: string, i: nat) {
    IsUnder(world, roots, path, i) && forall j: nat :: IsUnder(world, roots, path, j) ==> j == i
  }

  /** An entry loads exactly when its file can be read and lies under one root and no other. */
  lemma LoadsExactly(world: World, roots: seq<string>, path: string)
    ensures Loads(world, roots, path) <==> path in world.files && exists i :: IsOnlyUnder(world, roots, path, i)
  {
    OneMatch(world, roots, path);
  }

  lemma {:induction false} NoMatch(world: World, roots: seq<string>, path: string)
    ensures MatchedRoots(world, roots, path) == [] <==> forall i :: !IsUnder(world, roots, path, i)
  {
    if roots != [] {
      var n := |roots| - 1;
      NoMatch(world, roots[..n], path);
      forall i: nat | i < n ensures IsUnder(world, roots[..n], path, i) <==> IsUnder(world, roots, path, i) {
      }
      assert (path, roots[n]) in world.under <==> IsUnder(world, roots, path, n);
    }
  }

  lemma {:induction false} OneMatch(world: World, roots: seq<string>, path: string)
    ensures |MatchedRoots(world, roots, path)| == 1 <==> exists i :: IsOnlyUnder(world, roots, path, i)
  {
    if roots != [] {
      var n := |roots| - 1;
      var before := roots[..n];
      NoMatch(world, before, path);
      OneMatch(world, before, path);
      forall i: nat | i < n ensures IsUnder(world, before, path, i) <==> IsUnder(world, roots, path, i) {
      }
      if IsUnder(world, roots, path, n) {
        assert MatchedRoots(world, before, path) == [] ==> IsOnlyUnder(world, roots, path, n);
        forall i | IsOnlyUnder(world, roots, path, i) ensures MatchedRoots(world, before, path) == [] {
          assert i == n;
        }
      } else {
        forall i: nat ensures IsOnlyUnder(world, before, path, i) <==> IsOnlyUnder(world, roots, path, i) {
          OnlyUnderInFront(world, roots, path, i);
        }
      }
    }
  }

  lemma OnlyUnderInFront(world: World, roots: seq<string>, path: string, i: nat)
    requires roots != [] && !IsUnder(world, roots, path, |roots| - 1)
    ensures IsOnlyUnder(world, roots[..|roots| - 1], path, i) <==> IsOnlyUnder(world, roots, path, i)
  {
    var before := roots[..|roots| - 1];
    forall j: nat | IsUnder(world, roots, path, j) ensures IsUnder(world, before, path, j) {
    }
    forall j: nat | IsUnder(world, before, path, j) ensures IsUnder(world, roots, path, j) {
    }
  }

  /** The unit has the text of its file, if there is one. */
  predicate IsUpToDate(world: World, units: Units, m: string) {
    m in world.files ==> m in units && units[m].text == world.files[m]
  }

  /** All that happened to texts and interfaces is that files were read. */
  ghost predicate ReadOn(world: World, before: Units, after: Units, rereads: seq<Read>) {
    FromDisk(world, rereads) && SameInterfaces(after, AfterReads(before, rereads))
  }

  lemma ReadFurther(world: World, start: Units, units: Units, after: Units, rereads: seq<Read>, more: seq<Read>)
    requires ReadOn(world, start, units, rereads) && ReadOn(world, units, after, more)
    ensures ReadOn(world, start, after, rereads + more)
  {
    ReadsOfSameInterfaces(units, AfterReads(start, rereads), more);
    ReadsAppend(start, rereads, more);
  }

  lemma ReadOnKeeps(world: World, before: Units, after: Units, rereads: seq<Read>)
    requires ReadOn(world, before, after, rereads)
    ensures before.Keys <= after.Keys
    ensures forall m :: IsUpToDate(world, before, m) ==> IsUpToDate(world, after, m)
  {
    forall m ensures m in before ==> m in after {
      DiskReadsKeep(world, before, rereads, m);
    }
    forall m | IsUpToDate(world, before, m) ensures IsUpToDate(world, after, m) {
      DiskReadsKeep(world, before, rereads, m);
    }
  }

  lemma {:induction false} DiskReadsKeep(world: World, units: Units, rereads: seq<Read>, m: string)
    requires FromDisk(world, rereads)
    ensures m in units ==> m in AfterReads(units, rereads)
    ensures IsUpToDate(world, units, m) ==> IsUpToDate(world, AfterReads(units, rereads), m)
    decreases |rereads|
  {
    if rereads != [] {
      assert rereads[|rereads| - 1] in rereads;
      DiskReadsKeep(world, units, rereads[..|rereads| - 1], m);
    }
  }

  ghost predicate UpToDateBelow(world: World, units: Units, edges: Edges, entry: string) {
    forall m :: Reaches(edges, entry, m) ==> IsUpToDate(world, units, m)
  }

  ghost function Targets(edges: Edges): set<string> {
    set p, q | p in edges && q in edges[p] :: q
  }

  ghost predicate Queue(pending: seq<string>, queued: set<string>) {
    Distinct(pending) && forall m :: m in queued <==> m in pending
  }

  ghost predicate IsVisited(world: World, units: Units, edges: Edges, queued: set<string>, m: string) {
    IsUpToDate(world, units, m) && forall d <- Next(edges, m) :: d in queued
  }

  /** Only what the module depends on has changed, and only by modules from the set. */
  ghost predicate OnlyEdgesOf(path: string, before: Edges, after: Edges, more: set<string>) {
    && (forall q :: q != path ==> Next(after, q) == Next(before, q))
    && forall d <- Next(after, path) :: d in Next(before, path) || d in more
  }

  lemma TargetsOfChange(before: Edges, after: Edges, path: string, more: set<string>, universe: set<string>)
    requires OnlyEdgesOf(path, before, after, more) && Targets(before) <= universe && more <= universe
    ensures Targets(after) <= universe
  {
    forall q | q in Targets(after) ensures q in universe {
      var p :| p in after && q in after[p];
      assert q in Next(after, p);
      assert q in Next(before, p) ==> q in Targets(before);
    }
  }

  lemma TargetsOfNext(edges: Edges, p: string)
    ensures (set d <- Next(edges, p)) <= Targets(edges)
  {
  }

  lemma EdgesFurther(path: string, a: Edges, b: Edges, c: Edges, more: set<string>)
    requires OnlyEdgesOf(path, a, b, more) && OnlyEdgesOf(path, b, c, more)
    ensures OnlyEdgesOf(path, a, c, more)
  {
  }

  lemma SourcesFurther(world: World, a: map<string, string>, b: map<string, string>, c: map<string, string>)
    requires SourcesFromDisk(world, a, b) && SourcesFromDisk(world, b, c)
    ensures SourcesFromDisk(world, a, c)
  {
  }

  ghost predicate VisitedFirst(world: World, units: Units, edges: Edges, queued: set<string>, pending: seq<string>,
                               index: nat)
  {
    index <= |pending| && forall k :: 0 <= k < index ==> IsVisited(world, units, edges, queued, pending[k])
  }

  lemma VisitNext(world: World, units: Units, after: Units, edges: Edges, nowEdges: Edges, queued: set<string>,
                  nowQueued: set<string>, pending: seq<string>, nowPending: seq<string>, index: nat, more: seq<Read>)
    requires VisitedFirst(world, units, edges, queued, pending, index) && index < |pending|
    requires Distinct(pending) && pending <= nowPending && queued <= nowQueued
    requires ReadOn(world, units, after, more) && IsUpToDate(world, after, pending[index])
    requires OnlyEdgesOf(pending[index], edges, nowEdges, world.files.Keys)
    requires forall d <- Next(nowEdges, pending[index]) :: d in nowQueued
    ensures VisitedFirst(world, after, nowEdges, nowQueued, nowPending, index + 1)
  {
    ReadOnKeeps(world, units, after, more);
    forall k | 0 <= k < index + 1 ensures IsVisited(world, after, nowEdges, nowQueued, nowPending[k]) {
      assert nowPending[k] == pending[k];
      assert k < index ==> IsVisited(world, units, edges, queued, pending[k]);
    }
  }

  lemma VisitedAll(world: World, units: Units, edges: Edges, queued: set<string>, pending: seq<string>, entry: string)
    requires Queue(pending, queued) && entry in queued
    requires VisitedFirst(world, units, edges, queued, pending, |pending|)
    ensures UpToDateBelow(world, units, edges, entry)
  {
    forall p, q | p in queued && Edge(edges, p, q) ensures q in queued {
      assert IsVisited(world, units, edges, queued, p);
    }
    forall m | Reaches(edges, entry, m) ensures IsUpToDate(world, units, m) {
      var path :| IsPath(edges, path, entry, m);
      ForwardClosed(edges, queued, path, entry, m);
      assert IsVisited(world, units, edges, queued, m);
    }
  }

  method Enqueue(pending: seq<string>, queued: set<string>, more: seq<string>)
    returns (nowPending: seq<string>, nowQueued: set<string>)
    requires Queue(pending, queued)
    ensures Queue(nowPending, nowQueued) && pending <= nowPending
    ensures nowQueued == queued + set m <- more
    ensures nowQueued == queued ==> nowPending == pending
  {
    nowPending, nowQueued := pending, queued;
    for i := 0 to |more|
      invariant Queue(nowPending, nowQueued) && pending <= nowPending
      invariant nowQueued == queued + set m <- more[..i]
      invariant nowQueued == queued ==> nowPending == pending
    {
      if more[i] !in nowQueued {
        DistinctSnoc(nowPending, more[i]);
        nowPending, nowQueued := nowPending + [more[i]], nowQueued + {more[i]};
      }
    }
    assert more[..|more|] == more;
  }

  predicate HitsLimit(world: World, roots: seq<string>, path: string) {
    Loads(world, roots, path) && world.ends(path).LimitReached?
  }

  function OffersFrom(world: World, roots: seq<string>, entries: seq<string>): seq<string> {
    if entries == [] || HitsLimit(world, roots, entries[0]) then []
    else (if Loads(world, roots, entries[0]) then [entries[0]] else []) + OffersFrom(world, roots, entries[1..])
  }

  /** The entries that may be made active: those that load, up to one that runs into the limit of errors;
      none when the roots are not usable. */
  function Offered(world: World, roots: seq<string>, entries: seq<string>): seq<string> {
    if roots != [] && world.rootsUsable then OffersFrom(world, roots, entries) else []
  }

  /** An entry is offered exactly when it loads and neither it nor an entry before it runs into the limit. */
  lemma {:induction false} OfferedExactly(world: World, roots: seq<string>, entries: seq<string>, e: string)
    requires roots != [] && world.rootsUsable
    ensures e in Offered(world, roots, entries)
       <==> exists i :: 0 <= i < |entries| && entries[i] == e && Loads(world, roots, e)
                        && forall j :: 0 <= j <= i ==> !HitsLimit(world, roots, entries[j])
  {
    if entries != [] && !HitsLimit(world, roots, entries[0]) {
      OfferedExactly(world, roots, entries[1..], e);
      if i :| 0 <= i < |entries| && entries[i] == e && Loads(world, roots, e)
              && forall j :: 0 <= j <= i ==> !HitsLimit(world, roots, entries[j]) {
        if i > 0 {
          assert entries[1..][i - 1] == e;
        }
      }
      if i :| 0 <= i < |entries| - 1 && entries[1..][i] == e && Loads(world, roots, e)
              && forall j :: 0 <= j <= i ==> !HitsLimit(world, roots, entries[1..][j]) {
        assert entries[i + 1] == e;
        forall j | 0 <= j <= i + 1 ensures !HitsLimit(world, roots, entries[j]) {
          if j > 0 {
            assert entries[j] == entries[1..][j - 1];
          }
        }
      }
    }
  }

  /** Sources were only read again, from the files at hand. */
  predicate SourcesFromDisk(world: World, before: map<string, string>, after: map<string, string>) {
    && (forall p <- before :: p in after)
    && (forall p <- after :: (p in before && after[p] == before[p]) || (p in world.files && after[p] == world.files[p]))
  }

  predicate FromDisk(world: World, rereads: seq<Read>) {
    forall r <- rereads :: r.path in world.files && r.text == world.files[r.path]
  }

  /** The rounds of building a project: one for every entry in turn, up to one that runs into the limit. */
  ghost predicate RoundsOver(world: World, roots: seq<string>, entries: seq<string>, rounds: seq<Round>) {
    && |rounds| <= |entries|
    && (forall i :: 0 <= i < |rounds| ==> RoundOf(world, entries[i], rounds[i]))
    && (forall i :: 0 <= i < |rounds| - 1 ==> !HitsLimit(world, roots, entries[i]))
    && (|rounds| < |entries| ==> rounds != [] && HitsLimit(world, roots, entries[|rounds| - 1]))
  }

  predicate RoundOf(world: World, entry: string, round: Round) {
    round.entry == entry && FromDisk(world, round.rereads)
  }

  /** The rounds so far, none of which ran into the limit, and what they made of the units. */
  ghost predicate RoundsSoFar(world: World, roots: seq<string>, entries: seq<string>, rounds: seq<Round>,
                              start: Units, units: Units)
  {
    && |rounds| <= |entries|
    && (forall i :: 0 <= i < |rounds| ==>
          RoundOf(world, entries[i], rounds[i]) && !HitsLimit(world, roots, entries[i]))
    && SameInterfaces(units, AfterRounds(start, rounds))
  }

  lemma NextRound(world: World, roots: seq<string>, entries: seq<string>, rounds: seq<Round>, round: Round,
                  start: Units, units: Units, after: Units)
    requires RoundsSoFar(world, roots, entries, rounds, start, units) && |rounds| < |entries|
    requires RoundOf(world, entries[|rounds|], round)
    requires SameInterfaces(after, AfterReads(Invalidated(units, round.edges, round.entry), round.rereads))
    ensures SameInterfaces(after, AfterRounds(start, rounds + [round]))
    ensures if HitsLimit(world, roots, entries[|rounds|]) then RoundsOver(world, roots, entries, rounds + [round])
            else RoundsSoFar(world, roots, entries, rounds + [round], start, after)
  {
    OneMoreRound(start, units, after, rounds, round);
    if HitsLimit(world, roots, entries[|rounds|]) {
      LastRound(world, roots, entries, rounds, round);
    } else {
      assert forall i :: 0 <= i < |rounds| + 1 ==>
        RoundOf(world, entries[i], (rounds + [round])[i]) && !HitsLimit(world, roots, entries[i]);
    }
  }

  lemma LastRound(world: World, roots: seq<string>, entries: seq<string>, rounds: seq<Round>, round: Round)
    requires |rounds| < |entries| && RoundOf(world, entries[|rounds|], round)
    requires forall i :: 0 <= i < |rounds| ==>
      RoundOf(world, entries[i], rounds[i]) && !HitsLimit(world, roots, entries[i])
    requires HitsLimit(world, roots, entries[|rounds|])
    ensures RoundsOver(world, roots, entries, rounds + [round])
  {
  }

  predicate IsAmong(e: string, entries: seq<string>, i: nat) {
    exists j :: 0 <= j < i <= |entries| && entries[j] == e
  }

  /** What the first i entries contribute: some of them, on record, and the rest contributes the rest. */
  predicate OffersSoFar(world: World, roots: seq<string>, entries: seq<string>, i: nat, refreshed: seq<string>,
                        units: set<string>)
  {
    && i <= |entries|
    && (forall e <- refreshed :: e in units && IsAmong(e, entries, i))
    && OffersFrom(world, roots, entries) == refreshed + OffersFrom(world, roots, entries[i..])
  }

  lemma OffersNext(world: World, roots: seq<string>, entries: seq<string>, i: nat, refreshed: seq<string>,
                   before: set<string>, after: set<string>)
    requires i < |entries| && Distinct(entries) && OffersSoFar(world, roots, entries, i, refreshed, before)
    requires before <= after && (Loads(world, roots, entries[i]) ==> entries[i] in after)
    ensures entries[i] !in refreshed && forall e <- refreshed :: e in entries && e in after
    ensures if HitsLimit(world, roots, entries[i]) then OffersFrom(world, roots, entries) == refreshed
            else OffersSoFar(world, roots, entries, i + 1,
                             if Loads(world, roots, entries[i]) then refreshed + [entries[i]] else refreshed, after)
  {
    assert entries[i..][1..] == entries[i + 1..];
    var tail := OffersFrom(world, roots, entries[i + 1..]);
    assert (refreshed + [entries[i]]) + tail == refreshed + ([entries[i]] + tail);
    assert [] + tail == tail;
  }

  /** Where loading the entries stands before the i-th. */
  ghost predicate Loading(world: World, roots: seq<string>, entries: seq<string>, i: nat, refreshed: seq<string>,
                          rounds: seq<Round>, start: Units, units: Units)
  {
    && OffersSoFar(world, roots, entries, i, refreshed, units.Keys)
    && |rounds| == i && RoundsSoFar(world, roots, entries, rounds, start, units)
  }

  /** What it comes to in the end. */
  ghost predicate LoadedAll(world: World, roots: seq<string>, entries: seq<string>, refreshed: seq<string>,
                            rounds: seq<Round>, start: Units, units: Units)
  {
    && refreshed == OffersFrom(world, roots, entries)
    && (forall e <- refreshed :: e in entries && e in units)
    && RoundsOver(world, roots, entries, rounds)
    && SameInterfaces(units, AfterRounds(start, rounds))
  }

  lemma LoadingNext(world: World, roots: seq<string>, entries: seq<string>, i: nat, refreshed: seq<string>,
                    rounds: seq<Round>, start: Units, units: Units, round: Round, after: Units)
    requires Loading(world, roots, entries, i, refreshed, rounds, start, units)
    requires i < |entries| && Distinct(entries) && RoundOf(world, entries[i], round)
    requires units.Keys <= after.Keys && (Loads(world, roots, entries[i]) ==> entries[i] in after)
    requires SameInterfaces(after, AfterReads(Invalidated(units, round.edges, round.entry), round.rereads))
    ensures entries[i] !in refreshed
    ensures if HitsLimit(world, roots, entries[i])
            then LoadedAll(world, roots, entries, refreshed, rounds + [round], start, after)
            else Loading(world, roots, entries, i + 1,
                         if Loads(world, roots, entries[i]) then refreshed + [entries[i]] else refreshed,
                         rounds + [round], start, after)
  {
    OffersNext(world, roots, entries, i, refreshed, units.Keys, after.Keys);
    NextRound(world, roots, entries, rounds, round, start, units, after);
  }

  lemma LoadingDone(world: World, roots: seq<string>, entries: seq<string>, refreshed: seq<string>,
                    rounds: seq<Round>, start: Units, units: Units)
    requires Loading(world, roots, entries, |entries|, refreshed, rounds, start, units)
    ensures LoadedAll(world, roots, entries, refreshed, rounds, start, units)
  {
  }

  class Workspace {
    const graph: Graph
    var units: Units
    /** Text of every source that was read, by path. */
    var sources: map<string, string>

    ghost predicate Valid()
      reads this, graph
    {
      graph.Valid() && units.Keys == graph.dependencies.Keys && units.Keys <= sources.Keys
    }

    constructor ()
      ensures Valid() && fresh(graph) && units == map[]
    {
      graph := new Graph();
      units, sources := map[], map[];
    }

    method InvalidateModuleAndDependents(path: string)
      requires Valid()
      modifies this, graph
      ensures Valid() && sources == old(sources)
      ensures units == Invalidated(old(units), old(graph.dependencies), path)
      ensures forall m <- units :: units[m].collected ==> !Reaches(graph.dependencies, m, path)
      ensures graph.dependencies
           == if path in old(units) then old(graph.dependencies)[path := []] else old(graph.dependencies)
    {
      if path in units {
        graph.ResetDependencies(path);
        units := units[path := units[path].(tree := None)];
      }
      var stale := graph.CollectDependentClosure(path);
      ClosureIsInvalidated(old(units), old(graph.dependencies), path, path in old(units), stale);
      ClearInterfaces(stale);
    }

    /** The module is invalidated, read again, and so is what it depends on. `found` says that the module
        itself could be loaded. */
    method ReloadModule(world: World, roots: seq<string>, p: string)
      returns (found: bool, r: LoadOutcome, ghost rereads: seq<Read>)
      requires Valid()
      modifies this, graph
      ensures Valid() && old(units).Keys <= units.Keys
      ensures found <==> Loads(world, roots, p)
      ensures r == if found then world.ends(p) else Failed(true)
      ensures found ==> p in units
      ensures r.Loaded? ==> UpToDateBelow(world, units, graph.dependencies, p)
      ensures FromDisk(world, rereads) && SourcesFromDisk(world, old(sources), sources)
      ensures if p in world.files then rereads != [] && rereads[0].path == p else rereads == []
      ensures SameInterfaces(units, AfterReads(Invalidated(old(units), old(graph.dependencies), p), rereads))
      ensures forall b, m ::
                HeldAbove(units, old(graph.dependencies), b, m)
                <==> HeldAbove(old(units), old(graph.dependencies), b, m) && m !in Changed(old(units), rereads)
                     && !Reaches(old(graph.dependencies), m, p)
    {
      InvalidateModuleAndDependents(p);
      ghost var invalidated := units;
      r := LoadEntryUnit(world, roots, p);
      found := r.Loaded?;
      rereads := if p in world.files then [Read(p, world.files[p])] else [];
      assert SameInterfaces(units, AfterReads(invalidated, rereads));
      if found {
        ghost var before, more := units, rereads;
        r, more := Load(world, p);
        ReadFurther(world, invalidated, before, units, rereads, more);
        ReadOnKeeps(world, before, units, more);
        rereads := rereads + more;
      }
      forall b, m
        ensures HeldAbove(units, old(graph.dependencies), b, m)
                <==> HeldAbove(old(units), old(graph.dependencies), b, m) && m !in Changed(old(units), rereads)
                     && !Reaches(old(graph.dependencies), m, p)
      {
        StaleAfterReload(old(units), old(graph.dependencies), p, rereads, b, m);
      }
    }

    method ClearInterfaces(stale: seq<string>)
      modifies `units
      ensures units == Cleared(old(units), stale)
    {
      for i := 0 to |stale|
        invariant units == Cleared(old(units), stale[..i])
      {
        assert stale[..i + 1] == stale[..i] + [stale[i]];
        if stale[i] in units {
          units := units[stale[i] := units[stale[i]].(collected := false)];
        }
      }
      assert stale[..|stale|] == stale;
    }

    /** Reads a source and puts its unit on record. */
    method LoadUnit(path: string, text: string)
      requires Valid()
      modifies this, graph
      ensures Valid()
      ensures units == old(units)[path := Refreshed(old(units), path, text)]
      ensures sources == old(sources)[path := text]
      ensures forall q :: Next(graph.dependencies, q) == Next(old(graph.dependencies), q)
    {
      sources := sources[path := text];
      graph.GetOrCreate(path);
      units := units[path := Refreshed(units, path, text)];
    }

    /** Reads a file into the sources without touching a unit. */
    method AddSource(path: string, text: string)
      requires Valid()
      modifies `sources
      ensures Valid() && sources == old(sources)[path := text]
    {
      sources := sources[path := text];
    }

    /** Fails when the file cannot be read, or later when its place among the roots is worked out. */
    method LoadEntryUnit(world: World, roots: seq<string>, path: string) returns (r: LoadOutcome)
      requires Valid()
      modifies this, graph
      ensures Valid()
      ensures r == if Loads(world, roots, path) then Loaded else Failed(true)
      ensures units == if path in world.files then old(units)[path := Refreshed(old(units), path, world.files[path])]
                       else old(units)
      ensures SourcesFromDisk(world, old(sources), sources)
    {
      if path !in world.files {
        return Failed(true);
      }
      LoadUnit(path, world.files[path]);
      var root := MatchedModuleRoot(world, roots, path);
      r := if root.Some? then Loaded else Failed(true);
    }

    method ParseUnit(world: World, path: string) returns (r: LoadOutcome)
      requires Valid() && path in units
      modifies `units
      ensures Valid() && units.Keys == old(units).Keys && r == world.ends(path)
      ensures forall m <- units :: m != path ==> units[m] == old(units)[m]
      ensures units[path].text == old(units)[path].text
    {
      var tree: Option<Tree> := *;
      units := units[path := units[path].(tree := None)];
      r := world.ends(path);
      if r.Loaded? {
        units := units[path := units[path].(tree := tree)];
      }
    }

    /** A text that was handed over becomes the source of its unit and is parsed. */
    method LoadText(world: World, path: string, text: string) returns (r: LoadOutcome)
      requires Valid()
      modifies this, graph
      ensures Valid() && r == world.ends(path) && sources == old(sources)[path := text]
      ensures units.Keys == old(units).Keys + {path} && units[path].text == text
      ensures forall m <- old(units) :: m != path ==> units[m] == old(units)[m]
    {
      LoadUnit(path, text);
      r := ParseUnit(world, path);
    }

    /** Reads the entry and everything it depends on, as far as files can be read, breadth first. Where loading
        does not end well it stops somewhere on the way. */
    method Load(world: World, entry: string) returns (r: LoadOutcome, ghost rereads: seq<Read>)
      requires Valid()
      modifies this, graph
      ensures Valid() && r == world.ends(entry)
      ensures ReadOn(world, old(units), units, rereads) && SourcesFromDisk(world, old(sources), sources)
      ensures r.Loaded? ==> UpToDateBelow(world, units, graph.dependencies, entry)
    {
      rereads := [];
      var stop: nat := *;
      var pending, queued := [entry], {entry};
      ghost var universe := Targets(graph.dependencies) + world.files.Keys + {entry};
      var index := 0;
      while index < |pending| && (world.ends(entry).Loaded? || index < stop)
        invariant Valid() && ReadOn(world, old(units), units, rereads)
        invariant SourcesFromDisk(world, old(sources), sources)
        invariant 0 <= index <= |pending| && Queue(pending, queued) && entry in queued
        invariant queued <= universe && Targets(graph.dependencies) <= universe
        invariant VisitedFirst(world, units, graph.dependencies, queued, pending, index)
        decreases universe - queued, |pending| - index
      {
        ghost var before, sourcesBefore, more := units, sources, rereads;
        pending, queued, more := VisitOne(world, pending, queued, index, universe);
        ReadFurther(world, old(units), before, units, rereads, more);
        SourcesFurther(world, old(sources), sourcesBefore, sources);
        rereads := rereads + more;
        index := index + 1;
      }
      r := world.ends(entry);
      if r.Loaded? {
        VisitedAll(world, units, graph.dependencies, queued, pending, entry);
      }
    }

    /** One step of the search: the module is loaded, and what it depends on is queued. */
    method VisitOne(world: World, pending: seq<string>, queued: set<string>, index: nat, ghost universe: set<string>)
      returns (nowPending: seq<string>, nowQueued: set<string>, ghost more: seq<Read>)
      requires Valid() && Queue(pending, queued) && index < |pending|
      requires VisitedFirst(world, units, graph.dependencies, queued, pending, index)
      requires queued <= universe && Targets(graph.dependencies) <= universe && world.files.Keys <= universe
      modifies this, graph
      ensures Valid() && ReadOn(world, old(units), units, more) && SourcesFromDisk(world, old(sources), sources)
      ensures Queue(nowPending, nowQueued) && pending <= nowPending && queued <= nowQueued
      ensures nowQueued == queued ==> nowPending == pending
      ensures nowQueued <= universe && Targets(graph.dependencies) <= universe
      ensures VisitedFirst(world, units, graph.dependencies, nowQueued, nowPending, index + 1)
    {
      var path := pending[index];
      more := LoadModule(world, path);
      TargetsOfChange(old(graph.dependencies), graph.dependencies, path, world.files.Keys, universe);
      TargetsOfNext(graph.dependencies, path);
      nowPending, nowQueued := Enqueue(pending, queued, Next(graph.dependencies, path));
      VisitNext(world, old(units), units, old(graph.dependencies), graph.dependencies, queued, nowQueued, pending,
                nowPending, index, more);
    }

    /** One module is read if it can be, and what it depends on may be worked out again. */
    method LoadModule(world: World, path: string) returns (ghost rereads: seq<Read>)
      requires Valid()
      modifies this, graph
      ensures Valid() && ReadOn(world, old(units), units, rereads) && IsUpToDate(world, units, path)
      ensures SourcesFromDisk(world, old(sources), sources)
      ensures OnlyEdgesOf(path, old(graph.dependencies), graph.dependencies, world.files.Keys)
    {
      rereads := [];
      if path in world.files {
        rereads := ReadFile(world, path);
      }
      var scanning: bool := *;
      if path in units && scanning {
        ghost var before, more := units, rereads;
        more := DiscoverDependencies(world, path);
        ReadFurther(world, old(units), before, units, rereads, more);
        ReadOnKeeps(world, before, units, more);
        rereads := rereads + more;
      }
    }

    /** The module is parsed and the modules it imports are read before they are recorded. */
    method DiscoverDependencies(world: World, path: string) returns (ghost rereads: seq<Read>)
      requires Valid() && path in units
      modifies this, graph
      ensures Valid() && ReadOn(world, old(units), units, rereads)
      ensures SourcesFromDisk(world, old(sources), sources)
      ensures OnlyEdgesOf(path, old(graph.dependencies), graph.dependencies, world.files.Keys)
    {
      rereads := [];
      var tree: Option<Tree> := *;
      units := units[path := units[path].(tree := tree)];
      graph.ResetDependencies(path);
      var imports: seq<string> := *;
      for i := 0 to |imports|
        invariant Valid() && path in units && ReadOn(world, old(units), units, rereads)
        invariant SourcesFromDisk(world, old(sources), sources)
        invariant OnlyEdgesOf(path, old(graph.dependencies), graph.dependencies, world.files.Keys)
      {
        ghost var before, sourcesBefore, edges, more := units, sources, graph.dependencies, rereads;
        more := ImportModule(world, path, imports[i]);
        ReadFurther(world, old(units), before, units, rereads, more);
        SourcesFurther(world, old(sources), sourcesBefore, sources);
        EdgesFurther(path, old(graph.dependencies), edges, graph.dependencies, world.files.Keys);
        rereads := rereads + more;
      }
    }

    method ImportModule(world: World, path: string, dependency: string) returns (ghost rereads: seq<Read>)
      requires Valid() && path in units
      modifies this, graph
      ensures Valid() && path in units && ReadOn(world, old(units), units, rereads)
      ensures SourcesFromDisk(world, old(sources), sources)
      ensures OnlyEdgesOf(path, old(graph.dependencies), graph.dependencies, world.files.Keys)
    {
      rereads := [];
      if dependency in world.files {
        rereads := ReadFile(world, dependency);
        Connect(path, dependency);
      }
    }

    method Connect(path: string, dependency: string)
      requires Valid() && path in units
      modifies graph
      ensures Valid()
      ensures OnlyEdgesOf(path, old(graph.dependencies), graph.dependencies, {dependency})
    {
      graph.AddDependency(path, dependency);
      forall d <- Next(graph.dependencies, path) ensures d in Next(old(graph.dependencies), path) || d == dependency {
        assert Edge(graph.dependencies, path, d);
      }
    }

    method ReadFile(world: World, path: string) returns (ghost rereads: seq<Read>)
      requires Valid() && path in world.files
      modifies this, graph
      ensures Valid() && units.Keys == old(units).Keys + {path}
      ensures ReadOn(world, old(units), units, rereads) && IsUpToDate(world, units, path)
      ensures SourcesFromDisk(world, old(sources), sources)
      ensures OnlyEdgesOf(path, old(graph.dependencies), graph.dependencies, {})
      ensures forall q :: Next(graph.dependencies, q) == Next(old(graph.dependencies), q)
    {
      var read := Read(path, world.files[path]);
      rereads := [read];
      assert [read][..0] == [];
      LoadUnit(path, world.files[path]);
    }

    /** Every entry is invalidated and read again; those that load are returned. Too many errors end the
        loop. */
    method LoadEntries(world: World, roots: seq<string>, entries: seq<string>)
      returns (refreshed: seq<string>, ghost rounds: seq<Round>)
      requires Valid() && Distinct(entries)
      modifies this, graph
      ensures Valid() && LoadedAll(world, roots, entries, refreshed, rounds, old(units), units)
      ensures StartsWith(rounds, old(graph.dependencies), graph.dependencies)
    {
      refreshed, rounds := [], [];
      for i := 0 to |entries|
        invariant Valid() && Loading(world, roots, entries, i, refreshed, rounds, old(units), units)
        invariant StartsWith(rounds, old(graph.dependencies), graph.dependencies)
      {
        ghost var before, round := units, *;
        var found, limitReached;
        found, limitReached, round := LoadEntry(world, roots, entries[i]);
        LoadingNext(world, roots, entries, i, refreshed, rounds, old(units), before, round, units);
        rounds := rounds + [round];
        if limitReached {
          return;
        }
        if found && entries[i] !in refreshed {
          refreshed := refreshed + [entries[i]];
        }
      }
      LoadingDone(world, roots, entries, refreshed, rounds, old(units), units);
    }

    method LoadEntry(world: World, roots: seq<string>, entry: string)
      returns (found: bool, limitReached: bool, ghost round: Round)
      requires Valid()
      modifies this, graph
      ensures Valid() && old(units).Keys <= units.Keys && (found ==> entry in units)
      ensures (found <==> Loads(world, roots, entry)) && (limitReached <==> HitsLimit(world, roots, entry))
      ensures RoundOf(world, entry, round) && round.edges == old(graph.dependencies)
      ensures SameInterfaces(units, AfterReads(Invalidated(old(units), round.edges, entry), round.rereads))
    {
      var outcome;
      ghost var rereads;
      found, outcome, rereads := ReloadModule(world, roots, entry);
      limitReached := outcome.LimitReached?;
      round := Round(old(graph.dependencies), entry, rereads);
    }

    /** Analysis collects interfaces and changes nothing else. */
    method Analyze()
      requires Valid()
      modifies this
      ensures Valid() && sources == old(sources) && units.Keys == old(units).Keys
      ensures forall m <- units :: units[m].tree == old(units)[m].tree && units[m].text == old(units)[m].text
      ensures Analysed(old(units), units)
    {
      var steps :| steps >= 0;
      for i := 0 to steps
        invariant Valid() && sources == old(sources) && units.Keys == old(units).Keys
        invariant forall m <- units :: units[m].tree == old(units)[m].tree && units[m].text == old(units)[m].text
        invariant KeepsHeld(old(units), units)
      {
        var path: string := *;
        if path in units {
          units := units[path := units[path].(collected := true)];
        }
      }
    }

    /** The entries are loaded and what was loaded is analysed. */
    method LoadProject(world: World, roots: seq<string>, entries: seq<string>)
      returns (refreshed: seq<string>, ghost rounds: seq<Round>)
      requires Valid() && Distinct(entries)
      modifies this, graph
      ensures Valid() && refreshed == OffersFrom(world, roots, entries)
      ensures forall e <- refreshed :: e in entries && e in units
      ensures RoundsOver(world, roots, entries, rounds)
      ensures StartsWith(rounds, old(graph.dependencies), graph.dependencies)
      ensures KeepsHeld(AfterRounds(old(units), rounds), units)
    {
      refreshed, rounds := LoadEntries(world, roots, entries);
      Analyze();
    }
  }

  class Session {
    const workspace: Workspace
    var moduleRoots: seq<string>
    var loadedEntryPaths: seq<string>
    var currentPath: string
    var currentSource: string
    var currentSourceIsFile: bool
    var sourceAvailable: bool
    var currentLine: int
    /** The active unit, by the path of its record. */
    var currentUnit: Option<string>
    var syntaxTree: Option<Tree>

    ghost predicate Valid()
      reads this, workspace, workspace.graph
    {
      && workspace.Valid()
      && Distinct(loadedEntryPaths)
      && currentLine >= 0
      && (if sourceAvailable then Active() else syntaxTree.None?)
    }

    /** The state of a loaded source. */
    ghost predicate Active()
      reads this, workspace, workspace.graph
    {
      && currentUnit == Some(currentPath) && currentPath in workspace.units
      && syntaxTree == workspace.units[currentPath].tree
      && currentPath in workspace.sources && 0 <= currentLine <= LineCount(workspace.sources[currentPath])
      && (currentSourceIsFile ==> InEntrySet(workspace.graph.dependencies, loadedEntryPaths, currentPath))
    }

    constructor ()
      ensures Valid() && !sourceAvailable && fresh(workspace) && fresh(workspace.graph)
    {
      workspace := new Workspace();
      moduleRoots, loadedEntryPaths, currentPath, currentSource := [], [], "", "";
      currentSourceIsFile, sourceAvailable, currentLine := false, false, 0;
      currentUnit, syntaxTree := None, None;
    }

    /** A cursor after the last line of the active source moves back to that line. */
    function Clamped(line: int): int
      reads this, workspace
    {
      if sourceAvailable && currentPath in workspace.sources && line > LineCount(workspace.sources[currentPath])
      then LineCount(workspace.sources[currentPath])
      else line
    }

    method FinalizeActiveUnit(resetLine: bool)
      requires workspace.Valid() && currentLine >= 0
      requires currentUnit == Some(currentPath) && currentPath in workspace.units
      requires Distinct(loadedEntryPaths)
      requires currentSourceIsFile ==> InEntrySet(workspace.graph.dependencies, loadedEntryPaths, currentPath)
      modifies this`syntaxTree, this`sourceAvailable, this`currentLine, workspace
      ensures Valid() && sourceAvailable
      ensures Analysed(old(workspace.units), workspace.units) && workspace.sources == old(workspace.sources)
      ensures currentLine == Clamped(if resetLine then 0 else old(currentLine))
    {
      syntaxTree, sourceAvailable := workspace.units[currentPath].tree, true;
      if resetLine {
        currentLine := 0;
      }
      if currentLine > LineCount(workspace.sources[currentPath]) {
        currentLine := LineCount(workspace.sources[currentPath]);
      }
      if syntaxTree.Some? {
        workspace.Analyze();
      }
    }

    /** Makes a module active if it is on record and reachable from one of the entries. */
    method Activate(entries: seq<string>, path: string, resetLine: bool) returns (r: bool)
      requires Valid() && currentSourceIsFile && forall e <- entries :: e in loadedEntryPaths
      modifies this`currentPath, this`currentUnit, this`syntaxTree, this`sourceAvailable, this`currentLine, workspace
      ensures Valid()
      ensures r <==> path in old(workspace.units) && old(InEntrySet(workspace.graph.dependencies, entries, path))
      ensures r ==> sourceAvailable && currentPath == path
      ensures r ==> currentLine == if resetLine then 0 else Clamped(old(currentLine))
      ensures !r ==> unchanged(this) && unchanged(workspace)
      ensures Analysed(old(workspace.units), workspace.units)
    {
      var belongs := workspace.graph.BelongsToEntrySet(entries, path);
      if path !in workspace.units || !belongs {
        return false;
      }
      currentPath, currentUnit := path, Some(path);
      FinalizeActiveUnit(resetLine);
      r := true;
    }

    /** The first of the entries that can be made active. */
    method ActivateFirst(entries: seq<string>)
      requires Valid() && currentSourceIsFile && !sourceAvailable && forall e <- entries :: e in loadedEntryPaths
      modifies this`currentPath, this`currentUnit, this`syntaxTree, this`sourceAvailable, this`currentLine, workspace
      ensures Valid()
      ensures !sourceAvailable ==> unchanged(this)
      ensures sourceAvailable <==> SomeOnRecord(entries, workspace.units.Keys)
      ensures sourceAvailable ==> IsFirstOnRecord(entries, workspace.units.Keys, currentPath)
      ensures currentLine == Clamped(old(currentLine))
      ensures Analysed(old(workspace.units), workspace.units)
    {
      for i := 0 to |entries|
        invariant unchanged(this) && unchanged(workspace)
        invariant forall j :: 0 <= j < i ==> entries[j] !in workspace.units
      {
        ReachesItself(workspace.graph.dependencies, entries[i]);
        var activated := Activate(entries, entries[i], false);
        if activated {
          return;
        }
      }
    }

    /** The desired module is active if it is on record and one of the entries reaches it, or else the first
        entry on record; without any no module is. */
    ghost predicate ActivatedFrom(entries: seq<string>, desired: string)
      reads this, workspace, workspace.graph
    {
      if desired in workspace.units && InEntrySet(workspace.graph.dependencies, entries, desired)
      then sourceAvailable && currentPath == desired
      else if SomeOnRecord(entries, workspace.units.Keys)
      then sourceAvailable && IsFirstOnRecord(entries, workspace.units.Keys, currentPath) && currentPath != desired
      else !sourceAvailable && currentPath == ""
    }

    /** Makes the desired module active, or else the first of the entries that can be. */
    method ActivateFrom(entries: seq<string>, desired: string)
      requires Valid() && currentSourceIsFile && !sourceAvailable && forall e <- entries :: e in loadedEntryPaths
      modifies this`currentPath, this`currentUnit, this`syntaxTree, this`sourceAvailable, this`currentLine, workspace
      ensures Valid()
      ensures Analysed(old(workspace.units), workspace.units)
      ensures ActivatedFrom(entries, desired) && currentLine == Clamped(old(currentLine))
      ensures (forall e <- entries :: e in workspace.units) ==>
        && (sourceAvailable <==> entries != [])
        && (entries != [] ==> Some(currentPath) == ActiveChoice(workspace.units.Keys, workspace.graph.dependencies,
                                                                entries, desired))
    {
      var activated := Activate(entries, desired, false);
      assert entries != [] ==> entries[0] in entries;
      if !activated {
        currentPath := "";
        ActivateFirst(entries);
        ReachesItself(workspace.graph.dependencies, currentPath);
      }
    }

    /** In file mode the entries that may be made active are offered and one of them is chosen. */
    method RebuildProject(world: World) returns (r: bool, ghost rounds: seq<Round>)
      requires workspace.Valid() && Distinct(loadedEntryPaths) && currentLine >= 0
      modifies this, workspace, workspace.graph
      ensures Valid() && r == sourceAvailable
      ensures moduleRoots == old(moduleRoots) && loadedEntryPaths == old(loadedEntryPaths)
      ensures currentSourceIsFile == old(currentSourceIsFile) && currentSource == old(currentSource)
      ensures !currentSourceIsFile ==> LoadedFromMemory(world) && currentPath == old(currentPath)
      ensures currentLine == Clamped(old(currentLine))
      ensures currentSourceIsFile ==> ChosenFrom(world, old(currentPath))
      ensures currentSourceIsFile ==> Rebuilt(world, old(workspace.units), old(workspace.graph.dependencies), rounds)
    {
      currentUnit, syntaxTree, sourceAvailable := None, None, false;
      if currentSourceIsFile {
        rounds := RebuildFromFiles(world);
      } else {
        RebuildFromMemory(world);
        rounds := [];
      }
      r := sourceAvailable;
    }

    function OfferedEntries(world: World): seq<string>
      reads this
    {
      Offered(world, moduleRoots, loadedEntryPaths)
    }

    /** The active module is the one that the choice among the offered entries yields, and there is one
        exactly when it yields one. The empty path asks for the first entry. */
    ghost predicate ChosenFrom(world: World, requested: string)
      reads this, workspace, workspace.graph
    {
      var offered := OfferedEntries(world);
      && (sourceAvailable ==> loadedEntryPaths != [])
      && (forall e <- offered :: e in loadedEntryPaths && e in workspace.units)
      && (sourceAvailable <==> offered != [])
      && (sourceAvailable ==>
            var desired := if requested == "" then loadedEntryPaths[0] else requested;
            Some(currentPath) == ActiveChoice(workspace.units.Keys, workspace.graph.dependencies, offered, desired))
    }

    /** What the rounds of a rebuild leave is still held after it; analysis only adds to that. */
    ghost predicate Rebuilt(world: World, units: Units, edges: Edges, rounds: seq<Round>)
      reads this, workspace, workspace.graph
    {
      && (if moduleRoots != [] && world.rootsUsable then RoundsOver(world, moduleRoots, loadedEntryPaths, rounds)
          else rounds == [])
      && StartsWith(rounds, edges, workspace.graph.dependencies)
      && KeepsHeld(AfterRounds(units, rounds), workspace.units)
    }

    method RebuildFromFiles(world: World) returns (ghost rounds: seq<Round>)
      requires Valid() && currentSourceIsFile && !sourceAvailable
      modifies this`currentPath, this`currentUnit, this`syntaxTree, this`sourceAvailable, this`currentLine,
        workspace, workspace.graph
      ensures Valid() && ChosenFrom(world, old(currentPath)) && currentLine == Clamped(old(currentLine))
      ensures Rebuilt(world, old(workspace.units), old(workspace.graph.dependencies), rounds)
    {
      if moduleRoots == [] || loadedEntryPaths == [] || !world.rootsUsable {
        return [];
      }
      var refreshed;
      refreshed, rounds := workspace.LoadProject(world, moduleRoots, loadedEntryPaths);
      ActivateFrom(refreshed, Desired(loadedEntryPaths, currentPath));
    }

    /** The text given is the source of its unit, which is active exactly when parsing it ends. */
    ghost predicate LoadedFromMemory(world: World)
      reads this, workspace
    {
      && (sourceAvailable <==> world.ends(currentPath).Loaded?)
      && currentPath in workspace.units && workspace.units[currentPath].text == currentSource
      && currentPath in workspace.sources && workspace.sources[currentPath] == currentSource
    }

    method RebuildFromMemory(world: World)
      requires Valid() && !currentSourceIsFile && !sourceAvailable
      modifies this`currentUnit, this`syntaxTree, this`sourceAvailable, this`currentLine, workspace, workspace.graph
      ensures Valid() && LoadedFromMemory(world) && currentLine == Clamped(old(currentLine))
    {
      currentUnit := Some(currentPath);
      var outcome := workspace.LoadText(world, currentPath, currentSource);
      if outcome.Loaded? {
        FinalizeActiveUnit(false);
      }
    }

    // ---------------------------------------------------------------------------------------------
    // Public operations
    // ---------------------------------------------------------------------------------------------

    /** `configured`: the roots that the loader accepts, unless it refuses them. */
    method SetRootPaths(configured: Option<seq<string>>) returns (r: bool)
      requires Valid()
      modifies this
      ensures Valid() && !sourceAvailable && currentSourceIsFile && loadedEntryPaths == [] && currentPath == ""
      ensures currentUnit.None? && currentSource == "" && currentLine == 0
      ensures moduleRoots == if configured.Some? then configured.value else []
      ensures r <==> moduleRoots != []
    {
      moduleRoots, loadedEntryPaths, currentPath, currentSource := [], [], "", "";
      currentSourceIsFile, sourceAvailable, currentLine := true, false, 0;
      currentUnit, syntaxTree := None, None;
      if configured.Some? {
        moduleRoots := configured.value;
      }
      r := moduleRoots != [];
    }

    method SetSourceText(world: World, path: string, text: string) returns (r: bool)
      requires Valid()
      modifies this, workspace, workspace.graph
      ensures Valid() && r == sourceAvailable && !currentSourceIsFile
      ensures loadedEntryPaths == [] && moduleRoots == [] && currentSource == text
      ensures currentPath == if path == "" then "<memory>.lo" else path
      ensures LoadedFromMemory(world) && currentLine == 0
    {
      moduleRoots, loadedEntryPaths := [], [];
      currentPath := if path == "" then "<memory>.lo" else path;
      currentSource, currentSourceIsFile, currentLine := text, false, 0;
      sourceAvailable := false;
      ghost var rounds;
      r, rounds := RebuildProject(world);
    }

    /** There is a project, or a text under a name. */
    ghost predicate HasSomethingToReload()
      reads this
    {
      && (currentSourceIsFile ==> moduleRoots != [] && loadedEntryPaths != [])
      && (!currentSourceIsFile ==> currentPath != "")
    }

    method Reload(world: World) returns (r: bool, ghost rounds: seq<Round>)
      requires Valid()
      modifies this, workspace, workspace.graph
      ensures Valid() && (r ==> sourceAvailable)
      ensures loadedEntryPaths == old(loadedEntryPaths) && currentSourceIsFile == old(currentSourceIsFile)
      ensures !old(HasSomethingToReload()) ==> !r && unchanged(this) && unchanged(workspace)
      ensures old(HasSomethingToReload()) && currentSourceIsFile ==>
        && r == sourceAvailable && ChosenFrom(world, old(currentPath))
        && Rebuilt(world, old(workspace.units), old(workspace.graph.dependencies), rounds)
      ensures old(HasSomethingToReload()) && !currentSourceIsFile ==>
        && r == sourceAvailable && LoadedFromMemory(world)
        && currentPath == old(currentPath) && currentSource == old(currentSource)
      ensures old(HasSomethingToReload()) ==> currentLine == Clamped(old(currentLine))
    {
      if currentSourceIsFile {
        if moduleRoots == [] || loadedEntryPaths == [] {
          return false, [];
        }
      } else if currentPath == "" {
        return false, [];
      }
      r, rounds := RebuildProject(world);
    }

    /** `resolved` is the file that the loader finds for the module, if any. */
    method ReloadFile(world: World, resolved: Option<string>) returns (r: bool, ghost rereads: seq<Read>)
      requires Valid()
      modifies this, workspace, workspace.graph
      ensures Valid()
      ensures loadedEntryPaths == old(loadedEntryPaths) && currentSourceIsFile == old(currentSourceIsFile)
      ensures r <==> old(OpensAtOnce(world, resolved)) && Loads(world, old(moduleRoots), resolved.value)
                     && world.ends(resolved.value) != Failed(true)
      ensures old(OpensAtOnce(world, resolved)) && resolved.value in world.files ==>
        KeepsReread(world, old(workspace.units), old(workspace.graph.dependencies), resolved.value, rereads)
      ensures r && world.ends(resolved.value).Loaded? ==>
        UpToDateBelow(world, workspace.units, workspace.graph.dependencies, resolved.value)
      ensures old(currentSourceIsFile && moduleRoots != []) ==>
        StaysActive(world, old(currentPath)) && currentLine == Clamped(old(currentLine))
      ensures old(!currentSourceIsFile || moduleRoots == []) ==> unchanged(this) && unchanged(workspace)
    {
      if !currentSourceIsFile || moduleRoots == [] {
        return false, [];
      }
      r, rereads := RebuildProjectFromModule(world, resolved);
    }

    /** What rereading leaves after the module was invalidated is still held; analysis only adds to that. */
    ghost predicate KeepsReread(world: World, units: Units, edges: Edges, path: string, rereads: seq<Read>)
      reads this, workspace
    {
      FromDisk(world, rereads) && KeepsHeld(AfterReads(Invalidated(units, edges, path), rereads), workspace.units)
    }

    /** The module that was active is active again if an entry still reaches it, or else the first entry on
        record; without any, or when the roots cannot be used, no module is. */
    ghost predicate StaysActive(world: World, path: string)
      reads this, workspace, workspace.graph
    {
      if !world.rootsUsable || path == "" then !sourceAvailable && currentPath == path
      else ActivatedFrom(loadedEntryPaths, path)
    }

    method RebuildProjectFromModule(world: World, resolved: Option<string>)
      returns (r: bool, ghost rereads: seq<Read>)
      requires Valid() && currentSourceIsFile && moduleRoots != []
      modifies this, workspace, workspace.graph
      ensures Valid() && StaysActive(world, old(currentPath)) && currentLine == Clamped(old(currentLine))
      ensures loadedEntryPaths == old(loadedEntryPaths) && currentSourceIsFile && moduleRoots == old(moduleRoots)
      ensures r <==> old(OpensAtOnce(world, resolved)) && Loads(world, old(moduleRoots), resolved.value)
                     && world.ends(resolved.value) != Failed(true)
      ensures old(OpensAtOnce(world, resolved)) && resolved.value in world.files ==>
        KeepsReread(world, old(workspace.units), old(workspace.graph.dependencies), resolved.value, rereads)
      ensures r && world.ends(resolved.value).Loaded? ==>
        UpToDateBelow(world, workspace.units, workspace.graph.dependencies, resolved.value)
    {
      currentUnit, syntaxTree, sourceAvailable := None, None, false;
      if !world.rootsUsable {
        return false, [];
      }
      r, rereads := ReadModuleAgain(world, resolved);
      workspace.Analyze();
      if currentPath != "" {
        ActivateFrom(loadedEntryPaths, currentPath);
      }
    }

    /** False for a hard failure: no such file, not a module of the loaded project, or no place among the
        roots. Errors in what is read are no hard failure. */
    method ReadModuleAgain(world: World, resolved: Option<string>) returns (r: bool, ghost rereads: seq<Read>)
      requires Valid() && !sourceAvailable
      modifies workspace, workspace.graph
      ensures Valid()
      ensures r <==> resolved.Some? && old(IsLoaded(resolved.value)) && Loads(world, moduleRoots, resolved.value)
                     && world.ends(resolved.value) != Failed(true)
      ensures resolved.Some? && old(IsLoaded(resolved.value)) && resolved.value in world.files ==>
        && FromDisk(world, rereads)
        && SameInterfaces(workspace.units, AfterReads(
             Invalidated(old(workspace.units), old(workspace.graph.dependencies), resolved.value), rereads))
      ensures SourcesFromDisk(world, old(workspace.sources), workspace.sources)
      ensures r && world.ends(resolved.value).Loaded? ==>
        UpToDateBelow(world, workspace.units, workspace.graph.dependencies, resolved.value)
      ensures resolved.Some? && resolved.value in world.files ==>
        resolved.value in workspace.sources && workspace.sources[resolved.value] == world.files[resolved.value]
    {
      rereads := [];
      if resolved.None? || resolved.value !in world.files {
        return false, [];
      }
      workspace.AddSource(resolved.value, world.files[resolved.value]);
      var belongs := workspace.graph.BelongsToEntrySet(loadedEntryPaths, resolved.value);
      if resolved.value !in workspace.units || !belongs {
        return false, [];
      }
      var found, outcome;
      found, outcome, rereads := workspace.ReloadModule(world, moduleRoots, resolved.value);
      r := outcome != Failed(true);
    }

    /** A module on record that an entry reaches. */
    ghost predicate IsLoaded(path: string)
      reads this, workspace, workspace.graph
    {
      path in workspace.units && InEntrySet(workspace.graph.dependencies, loadedEntryPaths, path)
    }

    ghost predicate OpensAtOnce(world: World, resolved: Option<string>)
      reads this, workspace, workspace.graph
    {
      currentSourceIsFile && moduleRoots != [] && world.rootsUsable && resolved.Some? && IsLoaded(resolved.value)
    }

    ghost predicate OpensByBuilding(world: World, resolved: Option<string>)
      reads this, workspace.graph
    {
      && currentSourceIsFile && moduleRoots != [] && world.rootsUsable && resolved.Some?
      && !InEntrySet(workspace.graph.dependencies, loadedEntryPaths, resolved.value)
    }

    /** A module of the loaded project becomes active with the cursor before its first line. Any other
        becomes an entry and the project is built again. The result is then true as soon as some entry is
        offered; the requested module is the active one when it is offered itself, and exactly when an offered
        entry reaches it. The path of a file is never empty, and an empty one would ask for the first entry. */
    method GotoModule(world: World, resolved: Option<string>) returns (r: bool)
      requires Valid()
      modifies this, workspace, workspace.graph
      ensures Valid()
      ensures r ==> sourceAvailable && resolved.Some? && old(currentSourceIsFile)
      ensures old(OpensAtOnce(world, resolved))
              ==> r && currentPath == resolved.value && currentLine == 0 && loadedEntryPaths == old(loadedEntryPaths)
      ensures old(OpensByBuilding(world, resolved)) ==>
        && loadedEntryPaths == old(loadedEntryPaths)
                               + (if resolved.value in old(loadedEntryPaths) then [] else [resolved.value])
        && currentLine == Clamped(old(currentLine))
        && (r <==> OfferedEntries(world) != [])
        && (resolved.value in OfferedEntries(world) && resolved.value != "" ==> r && currentPath == resolved.value)
        && (r && resolved.value != "" ==>
              if resolved.value in workspace.units
                 && InEntrySet(workspace.graph.dependencies, OfferedEntries(world), resolved.value)
              then currentPath == resolved.value
              else currentPath == OfferedEntries(world)[0] != resolved.value)
      ensures !old(OpensAtOnce(world, resolved)) && !old(OpensByBuilding(world, resolved)) ==> !r && unchanged(this)
    {
      if !currentSourceIsFile || moduleRoots == [] || !world.rootsUsable || resolved.None? {
        return false;
      }
      var path := resolved.value;
      var loaded := workspace.graph.BelongsToEntrySet(loadedEntryPaths, path);
      if !loaded {
        if path !in loadedEntryPaths {
          DistinctSnoc(loadedEntryPaths, path);
          loadedEntryPaths := loadedEntryPaths + [path];
        }
        currentPath := path;
        ghost var rounds;
        r, rounds := RebuildProject(world);
        ChoiceIsExact(workspace.units.Keys, workspace.graph.dependencies, OfferedEntries(world), path);
      } else {
        r := Activate(loadedEntryPaths, path, true);
      }
    }

    method GotoLine(line: int) returns (r: bool)
      requires Valid()
      modifies `currentLine
      ensures Valid()
      ensures r <==> currentPath != "" && currentPath in workspace.sources
                     && 0 < line <= LineCount(workspace.sources[currentPath])
      ensures currentLine == if r then line else old(currentLine)
    {
      if currentPath == "" || line <= 0 || currentPath !in workspace.sources
         || line > LineCount(workspace.sources[currentPath]) {
        return false;
      }
      currentLine := line;
      r := true;
    }
  }

  datatype Op =
    | OpSetRootPaths(configured: Option<seq<string>>)
    | OpSetSourceText(world: World, path: string, text: string)
    | OpReload(world: World)
    | OpReloadFile(world: World, resolved: Option<string>)
    | OpGotoModule(world: World, resolved: Option<string>)
    | OpGotoLine(line: int)

  /** Any sequence of public operations on a new session, with any outcome of each. */
  method RunSession(ops: seq<Op>) returns (session: Session)
    ensures fresh(session) && session.Valid()
  {
    session := new Session();
    for i := 0 to |ops|
      invariant fresh(session) && fresh(session.workspace) && fresh(session.workspace.graph) && session.Valid()
    {
      var done;
      ghost var rounds, rereads;
      match ops[i] {
        case OpSetRootPaths(configured) => done := session.SetRootPaths(configured);
        case OpSetSourceText(world, path, text) => done := session.SetSourceText(world, path, text);
        case OpReload(world) => done, rounds := session.Reload(world);
        case OpReloadFile(world, resolved) => done, rereads := session.ReloadFile(world, resolved);
        case OpGotoModule(world, resolved) => done := session.GotoModule(world, resolved);
        case OpGotoLine(line) => done := session.GotoLine(line);
      }
    }
  }
}
