/** `build_port` of scripts/ports.py: the recursive build driver with its
    path stack and its stage cache guarded by a completion marker. */
module Builds {
  import opened Graphs
  import opened Wrappers
  import opened Catalog

  type Fingerprint = string

  /** The staged files of a port. */
  type Stage = map<string, string>

  /** How a container run ends. `Unstarted` leaves the old stage alone; every other
      run has cleared it first. */
  datatype ContainerRun =
    | Unstarted
    | Aborted(left: Option<Stage>)
    | Finished(stage: Option<Stage>)

  /** What stays fixed during one top-level call. */
  datatype World = World(
    ports: Ports,
    fingerprint: Name -> Fingerprint,
    valid: (Name, Stage) -> bool,
    container: (Name, Stage) -> ContainerRun)

  datatype BuildError =
    | Circular(chain: seq<Name>)
    | UnknownDependency(name: Name)
    | ContainerFailed(name: Name)
    | NoStage(name: Name)
    | InvalidStage(name: Name)

  /** A container run that completed and whose stage passed validation. */
  datatype Completed = Completed(name: Name, fingerprint: Fingerprint, stage: Stage)

  /** How the last container run of a port that got under way ended: it completed, or it broke and
      left what it left. */
  datatype LastRun = Kept | Broke(left: Option<Stage>)

  /** The build tree: marker and stage of each port, and the history of container runs. */
  datatype Tree = Tree(
    markers: map<Name, Fingerprint>,
    stages: map<Name, Stage>,
    runs: seq<Name>,
    completed: set<Completed>,
    last: map<Name, LastRun>)
  {
    /** The port's marker and stage would be accepted from the cache. */
    predicate Fresh(w: World, n: Name) {
      && n in markers && n in stages
      && markers[n] == w.fingerprint(n)
      && w.valid(n, stages[n])
    }

    /** If the port has a marker and a stage, a build with that fingerprint completed with that stage. */
    predicate Vouched(n: Name) {
      n in markers && n in stages ==> Completed(n, markers[n], stages[n]) in completed
    }

    ghost predicate Coherent() {
      forall n :: n in markers ==> Vouched(n)
    }
  }

  const EMPTY_TREE := Tree(map[], map[], [], {}, map[])

  function Merge(prefix: Stage, stage: Stage): Stage {
    prefix + stage
  }

  function PutStage(stages: map<Name, Stage>, n: Name, stage: Option<Stage>): map<Name, Stage> {
    if stage.Some? then stages[n := stage.value] else stages - {n}
  }

  /** The part of `build_port` from the container run on. */
  function RunContainer(w: World, t: Tree, n: Name, prefix: Stage): (Tree, Result<Stage, BuildError>) {
    var begun := t.(runs := t.runs + [n]);
    match w.container(n, prefix)
    case Unstarted => (begun, Err(ContainerFailed(n)))
    case Aborted(left) =>
      (begun.(stages := PutStage(t.stages, n, left), last := t.last[n := Broke(left)]), Err(ContainerFailed(n)))
    case Finished(None) => (begun.(stages := t.stages - {n}, last := t.last[n := Broke(None)]), Err(NoStage(n)))
    case Finished(Some(stage)) =>
      var staged := begun.(stages := t.stages[n := stage]);
      if !w.valid(n, stage) then (staged.(last := t.last[n := Broke(Some(stage))]), Err(InvalidStage(n)))
      else
        (staged.(markers := t.markers[n := w.fingerprint(n)],
                 completed := t.completed + {Completed(n, w.fingerprint(n), stage)},
                 last := t.last[n := Kept]),
         Ok(stage))
  }

  /** The cached stage has the right marker, valid or not. */
  predicate MarkerMatches(w: World, t: Tree, n: Name) {
    n in t.markers && n in t.stages && t.markers[n] == w.fingerprint(n)
  }

  /** A matching marker whose stage does not validate is removed before the rebuild. */
  function DropInvalid(w: World, t: Tree, n: Name, allowCached: bool): Tree {
    if allowCached && MarkerMatches(w, t, n) then t.(markers := t.markers - {n}) else t
  }

  /** Pushing a name leaves fewer names off the stack. */
  lemma StackGrows(names: set<Name>, stack: seq<Name>, n: Name)
    requires n in names && n !in stack
    ensures names - Elements(stack + [n]) < names - Elements(stack)
  {
    assert n in names - Elements(stack) && n in stack + [n];
    assert forall m :: m in stack ==> m in stack + [n];
  }

  function Build(w: World, t: Tree, n: Name, stack: seq<Name>, allowCached: bool)
    : (Tree, Result<Stage, BuildError>)
    requires n in w.ports
    decreases w.ports.Keys - Elements(stack), 0, 0
  {
    if n in stack then (t, Err(Circular(stack + [n])))
    else if allowCached && t.Fresh(w, n) then (t, Ok(t.stages[n]))
    else
      StackGrows(w.ports.Keys, stack, n);
      var (built, prefix) :=
        BuildDependencies(w, DropInvalid(w, t, n, allowCached), w.ports[n].buildDependencies, stack + [n], map[]);
      if prefix.Err? then (built, prefix) else RunContainer(w, built, n, prefix.value)
  }

  /** Builds the given dependencies in order and merges their stages into the prefix. */
  function BuildDependencies(w: World, t: Tree, deps: seq<Name>, stack: seq<Name>, prefix: Stage)
    : (Tree, Result<Stage, BuildError>)
    decreases w.ports.Keys - Elements(stack), 1, |deps|
  {
    if deps == [] then (t, Ok(prefix))
    else if deps[0] !in w.ports then (t, Err(BuildError.UnknownDependency(deps[0])))
    else
      var (built, stage) := Build(w, t, deps[0], stack, true);
      if stage.Err? then (built, stage)
      else BuildDependencies(w, built, deps[1..], stack, Merge(prefix, stage.value))
  }

  // ---- Each container at most once ----

  /** What one call may have done to the tree: it ran some containers, each once, none on the
      stack, none that the cache could have served, and spoilt no other cached port. */
  ghost predicate RanOnce(w: World, t: Tree, t': Tree, stack: seq<Name>, cachedSkipped: set<Name>) {
    && t.runs <= t'.runs
    && NoRepeats(NewRuns(t, t'))
    && (forall m :: m in NewRuns(t, t') ==> m !in stack && (t.Fresh(w, m) ==> m in cachedSkipped))
    && (forall m :: t.Fresh(w, m) && m !in cachedSkipped ==> t'.Fresh(w, m))
  }

  function NewRuns(t: Tree, t': Tree): seq<Name>
    requires t.runs <= t'.runs
  {
    t'.runs[|t.runs|..]
  }

  /** After success, everything that was run is now served by the cache. */
  ghost predicate AllServed(w: World, t: Tree, t': Tree)
    requires t.runs <= t'.runs
  {
    forall m :: m in NewRuns(t, t') ==> t'.Fresh(w, m)
  }

  lemma {:induction false} BuildRunsOnce(w: World, t: Tree, n: Name, stack: seq<Name>, allowCached: bool)
    requires n in w.ports
    ensures var (t', r) := Build(w, t, n, stack, allowCached);
            && RanOnce(w, t, t', stack, if allowCached then {} else {n})
            && (r.Ok? ==> AllServed(w, t, t') && t'.Fresh(w, n) && t'.stages[n] == r.value)
    decreases w.ports.Keys - Elements(stack), 0, 0
  {
    if n !in stack && !(allowCached && t.Fresh(w, n)) {
      StackGrows(w.ports.Keys, stack, n);
      var dropped := DropInvalid(w, t, n, allowCached);
      DependenciesRunOnce(w, dropped, w.ports[n].buildDependencies, stack + [n], map[]);
      var (built, prefix) := BuildDependencies(w, dropped, w.ports[n].buildDependencies, stack + [n], map[]);
      if prefix.Ok? {
        ContainerRunsOnce(w, dropped, built, n, stack, prefix.value);
      } else {
        assert n in stack + [n];
        assert RanOnce(w, dropped, built, stack, {n});
      }
      RanOnceAfterDrop(w, t, Build(w, t, n, stack, allowCached).0, n, stack, allowCached);
    }
  }

  /** Dropping an invalid marker spoils nothing, because that marker served nothing. */
  lemma RanOnceAfterDrop(w: World, t: Tree, t': Tree, n: Name, stack: seq<Name>, allowCached: bool)
    requires !(allowCached && t.Fresh(w, n))
    requires RanOnce(w, DropInvalid(w, t, n, allowCached), t', stack, {n})
    ensures RanOnce(w, t, t', stack, if allowCached then {} else {n})
    ensures AllServed(w, DropInvalid(w, t, n, allowCached), t') ==> AllServed(w, t, t')
  {
    var dropped := DropInvalid(w, t, n, allowCached);
    assert NewRuns(dropped, t') == NewRuns(t, t');
    assert forall m :: m != n ==> (dropped.Fresh(w, m) <==> t.Fresh(w, m));
  }

  lemma ContainerRunsOnce(w: World, t: Tree, built: Tree, n: Name, stack: seq<Name>, prefix: Stage)
    requires RanOnce(w, t, built, stack + [n], {}) && AllServed(w, t, built) && n !in stack
    ensures var (t', r) := RunContainer(w, built, n, prefix);
            && RanOnce(w, t, t', stack, {n})
            && (r.Ok? ==> AllServed(w, t, t') && t'.Fresh(w, n) && t'.stages[n] == r.value)
  {
    hide RunContainer;
    ContainerTouchesOnlyItsPort(w, built, n, prefix);
    hide Tree.Fresh;
    var (t', r) := RunContainer(w, built, n, prefix);
    OneMoreRun(t, built, t', n);
    assert n in stack + [n];
    assert forall m :: m in stack ==> m in stack + [n];
  }

  lemma {:induction false} DependenciesRunOnce(w: World, t: Tree, deps: seq<Name>, stack: seq<Name>, prefix: Stage)
    ensures var (t', r) := BuildDependencies(w, t, deps, stack, prefix);
            RanOnce(w, t, t', stack, {}) && (r.Ok? ==> AllServed(w, t, t'))
    decreases w.ports.Keys - Elements(stack), 1, |deps|
  {
    if deps != [] && deps[0] in w.ports {
      BuildRunsOnce(w, t, deps[0], stack, true);
      var (built, stage) := Build(w, t, deps[0], stack, true);
      if stage.Ok? {
        DependenciesRunOnce(w, built, deps[1..], stack, Merge(prefix, stage.value));
        var (t', r) := BuildDependencies(w, built, deps[1..], stack, Merge(prefix, stage.value));
        RunsOnceCompose(w, t, built, t', stack);
      }
    }
  }

  lemma RunsOnceCompose(w: World, t: Tree, mid: Tree, t': Tree, stack: seq<Name>)
    requires RanOnce(w, t, mid, stack, {}) && AllServed(w, t, mid)
    requires RanOnce(w, mid, t', stack, {})
    ensures RanOnce(w, t, t', stack, {})
    ensures AllServed(w, mid, t') ==> AllServed(w, t, t')
  {
    assert NewRuns(t, t') == NewRuns(t, mid) + NewRuns(mid, t');
    forall i, j | 0 <= i < j < |NewRuns(t, t')|
      ensures NewRuns(t, t')[i] != NewRuns(t, t')[j]
    {
      if i < |NewRuns(t, mid)| <= j {
        assert mid.Fresh(w, NewRuns(t, mid)[i]);
        assert NewRuns(mid, t')[j - |NewRuns(t, mid)|] in NewRuns(mid, t');
      }
    }
  }

  /** Containers run only for the port itself and its transitive dependencies. */
  lemma {:induction false} RunsOnlyDependencies(w: World, t: Tree, n: Name, stack: seq<Name>, allowCached: bool)
    requires n in w.ports
    ensures var t' := Build(w, t, n, stack, allowCached).0;
            && t.runs <= t'.runs
            && forall m :: m in NewRuns(t, t') ==> Reaches(BuildGraph(w.ports), n, m)
    decreases w.ports.Keys - Elements(stack), 0, 0
  {
    var g := BuildGraph(w.ports);
    ReachesItself(g, n);
    if n !in stack && !(allowCached && t.Fresh(w, n)) {
      StackGrows(w.ports.Keys, stack, n);
      var dropped := DropInvalid(w, t, n, allowCached);
      var deps := w.ports[n].buildDependencies;
      DependenciesRunOnlyDependencies(w, dropped, n, deps, stack + [n], map[]);
      var (built, prefix) := BuildDependencies(w, dropped, deps, stack + [n], map[]);
      if prefix.Ok? {
        hide RunContainer, BuildDependencies;
        ContainerTouchesOnlyItsPort(w, built, n, prefix.value);
        OneMoreRun(t, built, RunContainer(w, built, n, prefix.value).0, n);
      }
    }
  }

  lemma OneMoreRun(t: Tree, built: Tree, t': Tree, n: Name)
    requires t.runs <= built.runs && t'.runs == built.runs + [n]
    ensures t.runs <= t'.runs && NewRuns(t, t') == NewRuns(t, built) + [n]
    ensures forall m :: m in NewRuns(t, t') <==> m in NewRuns(t, built) || m == n
  {
  }

  lemma {:induction false} DependenciesRunOnlyDependencies(w: World, t: Tree, n: Name, deps: seq<Name>,
                                                           stack: seq<Name>, prefix: Stage)
    requires n in w.ports && forall d :: d in deps ==> Edge(BuildGraph(w.ports), n, d)
    ensures var t' := BuildDependencies(w, t, deps, stack, prefix).0;
            && t.runs <= t'.runs
            && forall m :: m in NewRuns(t, t') ==> Reaches(BuildGraph(w.ports), n, m)
    decreases w.ports.Keys - Elements(stack), 1, |deps|
  {
    var g := BuildGraph(w.ports);
    if deps != [] && deps[0] in w.ports {
      RunsOnlyDependencies(w, t, deps[0], stack, true);
      var (built, stage) := Build(w, t, deps[0], stack, true);
      forall m | m in NewRuns(t, built)
        ensures Reaches(g, n, m)
      {
        ReachesAfterEdge(g, n, deps[0], m);
      }
      if stage.Ok? {
        DependenciesRunOnlyDependencies(w, built, n, deps[1..], stack, Merge(prefix, stage.value));
        var t' := BuildDependencies(w, built, deps[1..], stack, Merge(prefix, stage.value)).0;
        assert NewRuns(t, t') == NewRuns(t, built) + NewRuns(built, t');
      }
    }
  }

  // ---- What a container was given ----

  /** The stages of the given ports, merged in order. */
  function MergedStages(t: Tree, deps: seq<Name>, prefix: Stage): Stage {
    if deps == [] then prefix
    else MergedStages(t, deps[1..], if deps[0] in t.stages then Merge(prefix, t.stages[deps[0]]) else prefix)
  }

  /** The merged prefix holds a path exactly if some dependency has it, as the last such one has it. */
  lemma {:induction false} LastDependencyWins(t: Tree, deps: seq<Name>, prefix: Stage, path: string)
    requires forall d :: d in deps ==> d in t.stages
    ensures var merged := MergedStages(t, deps, prefix);
            && (path in merged <==> path in prefix || exists d :: d in deps && path in t.stages[d])
            && (path in prefix && (forall d :: d in deps ==> path !in t.stages[d]) ==> merged[path] == prefix[path])
            && forall i :: LastWith(t, deps, path, i) ==> path in merged && merged[path] == t.stages[deps[i]][path]
    decreases |deps|
  {
    if deps != [] {
      var rest := deps[1..];
      assert deps == [deps[0]] + rest;
      LastDependencyWins(t, rest, Merge(prefix, t.stages[deps[0]]), path);
      forall i | LastWith(t, deps, path, i)
        ensures path in MergedStages(t, deps, prefix)
        ensures MergedStages(t, deps, prefix)[path] == t.stages[deps[i]][path]
      {
        if i > 0 {
          assert LastWith(t, rest, path, i - 1);
        }
      }
    }
  }

  /** Dependency i has the path and no later one does. */
  predicate LastWith(t: Tree, deps: seq<Name>, path: string, i: int)
    requires forall d :: d in deps ==> d in t.stages
  {
    && 0 <= i < |deps| && path in t.stages[deps[i]]
    && forall j :: i < j < |deps| ==> path !in t.stages[deps[j]]
  }

  // ---- The stack is left alone ----

  ghost predicate Untouched(t: Tree, t': Tree, m: Name) {
    && (m in t'.markers <==> m in t.markers)
    && (m in t.markers ==> t'.markers[m] == t.markers[m])
    && (m in t'.stages <==> m in t.stages)
    && (m in t.stages ==> t'.stages[m] == t.stages[m])
  }

  /** While a port waits for its dependencies, nobody changes its marker or its stage. */
  lemma {:induction false} StackIsUntouched(w: World, t: Tree, n: Name, stack: seq<Name>, allowCached: bool, m: Name)
    requires n in w.ports && m in stack
    ensures Untouched(t, Build(w, t, n, stack, allowCached).0, m)
    decreases w.ports.Keys - Elements(stack), 0, 0
  {
    if n !in stack && !(allowCached && t.Fresh(w, n)) {
      StackGrows(w.ports.Keys, stack, n);
      hide BuildDependencies, RunContainer;
      assert m in stack + [n];
      var dropped := DropInvalid(w, t, n, allowCached);
      DependenciesLeaveStack(w, dropped, w.ports[n].buildDependencies, stack + [n], map[], m);
      var (built, prefix) := BuildDependencies(w, dropped, w.ports[n].buildDependencies, stack + [n], map[]);
      if prefix.Ok? {
        ContainerLeavesOthers(w, built, n, prefix.value, m);
      }
    }
  }

  lemma ContainerLeavesOthers(w: World, t: Tree, n: Name, prefix: Stage, m: Name)
    requires m != n
    ensures Untouched(t, RunContainer(w, t, n, prefix).0, m)
  {
  }

  lemma {:induction false} DependenciesLeaveStack(w: World, t: Tree, deps: seq<Name>, stack: seq<Name>, prefix: Stage,
                                                  m: Name)
    requires m in stack
    ensures Untouched(t, BuildDependencies(w, t, deps, stack, prefix).0, m)
    decreases w.ports.Keys - Elements(stack), 1, |deps|
  {
    if deps != [] && deps[0] in w.ports {
      StackIsUntouched(w, t, deps[0], stack, true, m);
      var (built, stage) := Build(w, t, deps[0], stack, true);
      if stage.Ok? {
        DependenciesLeaveStack(w, built, deps[1..], stack, Merge(prefix, stage.value), m);
      }
    }
  }

  /** A cached stage that fails validation loses its marker for good: unless the rebuild completes,
      the port has no marker afterwards, whatever the container left behind. */
  lemma InvalidMarkerGoes(w: World, t: Tree, n: Name, stack: seq<Name>)
    requires n in w.ports && n !in stack
    requires MarkerMatches(w, t, n) && !w.valid(n, t.stages[n])
    ensures var (t', r) := Build(w, t, n, stack, true);
            n in t'.markers <==> r.Ok?
  {
    var dropped := DropInvalid(w, t, n, true);
    assert n in stack + [n];
    DependenciesLeaveStack(w, dropped, w.ports[n].buildDependencies, stack + [n], map[], n);
  }

  // ---- What the cache keeps ----

  /** Nothing that the cache can serve is touched. */
  ghost predicate KeepsServed(w: World, t: Tree, t': Tree, except: set<Name>) {
    forall m :: t.Fresh(w, m) && m !in except ==> m in t'.stages && t'.stages[m] == t.stages[m] && t'.Fresh(w, m)
  }

  lemma {:induction false} BuildKeepsServed(w: World, t: Tree, n: Name, stack: seq<Name>, allowCached: bool)
    requires n in w.ports
    ensures KeepsServed(w, t, Build(w, t, n, stack, allowCached).0, if allowCached then {} else {n})
    decreases w.ports.Keys - Elements(stack), 0, 0
  {
    if n !in stack && !(allowCached && t.Fresh(w, n)) {
      StackGrows(w.ports.Keys, stack, n);
      var dropped := DropInvalid(w, t, n, allowCached);
      hide RunContainer, BuildDependencies;
      assert forall m :: m != n || allowCached ==> (dropped.Fresh(w, m) <==> t.Fresh(w, m));
      DependenciesKeepServed(w, dropped, w.ports[n].buildDependencies, stack + [n], map[]);
      var (built, prefix) := BuildDependencies(w, dropped, w.ports[n].buildDependencies, stack + [n], map[]);
      if prefix.Ok? {
        ContainerTouchesOnlyItsPort(w, built, n, prefix.value);
      }
    }
  }

  lemma {:induction false} DependenciesKeepServed(w: World, t: Tree, deps: seq<Name>, stack: seq<Name>, prefix: Stage)
    ensures KeepsServed(w, t, BuildDependencies(w, t, deps, stack, prefix).0, {})
    decreases w.ports.Keys - Elements(stack), 1, |deps|
  {
    if deps != [] && deps[0] in w.ports {
      BuildKeepsServed(w, t, deps[0], stack, true);
      var (built, stage) := Build(w, t, deps[0], stack, true);
      if stage.Ok? {
        DependenciesKeepServed(w, built, deps[1..], stack, Merge(prefix, stage.value));
      }
    }
  }

  lemma {:induction false} PrefixIsMerged(w: World, t: Tree, deps: seq<Name>, stack: seq<Name>, prefix: Stage)
    ensures var (t', r) := BuildDependencies(w, t, deps, stack, prefix);
            r.Ok? ==> r.value == MergedStages(t', deps, prefix) && forall d :: d in deps ==> t'.Fresh(w, d)
    decreases |deps|
  {
    if deps != [] && deps[0] in w.ports {
      BuildRunsOnce(w, t, deps[0], stack, true);
      var (built, stage) := Build(w, t, deps[0], stack, true);
      if stage.Ok? {
        PrefixIsMerged(w, built, deps[1..], stack, Merge(prefix, stage.value));
        DependenciesKeepServed(w, built, deps[1..], stack, Merge(prefix, stage.value));
      }
    }
  }

  /** A stage that was not served from the cache is the container's output on exactly the stages of
      the port's dependencies, merged in their order, as they stand in the tree afterwards. */
  lemma BuiltFromDependencies(w: World, t: Tree, n: Name, allowCached: bool)
    requires Validated(w.ports) && n in w.ports && !(allowCached && t.Fresh(w, n))
    ensures var (t', r) := Build(w, t, n, [], allowCached);
            r.Ok? ==>
              && (forall d :: d in w.ports[n].buildDependencies ==> t'.Fresh(w, d))
              && w.container(n, MergedStages(t', w.ports[n].buildDependencies, map[])) == Finished(Some(r.value))
  {
    hide BuildDependencies, RunContainer, DropInvalid;
    var deps := w.ports[n].buildDependencies;
    var dropped := DropInvalid(w, t, n, allowCached);
    assert [] + [n] == [n];
    PrefixIsMerged(w, dropped, deps, [n], map[]);
    var (built, prefix) := BuildDependencies(w, dropped, deps, [n], map[]);
    if prefix.Ok? {
      ContainerTouchesOnlyItsPort(w, built, n, prefix.value);
      NotItsOwnDependency(w, n);
      var t' := RunContainer(w, built, n, prefix.value).0;
      MergedStagesIgnoreOthers(built, t', deps, map[]);
    }
  }

  lemma ContainerTouchesOnlyItsPort(w: World, t: Tree, n: Name, prefix: Stage)
    ensures var (t', r) := RunContainer(w, t, n, prefix);
            && (forall m :: m != n ==> (m in t'.stages <==> m in t.stages))
            && (forall m :: m != n && m in t.stages ==> t'.stages[m] == t.stages[m])
            && (forall m :: m != n ==> (t'.Fresh(w, m) <==> t.Fresh(w, m)))
            && t'.runs == t.runs + [n]
            && (r.Ok? ==>
                  && w.container(n, prefix) == Finished(Some(r.value))
                  && t'.Fresh(w, n) && t'.stages[n] == r.value)
  {
  }

  lemma NotItsOwnDependency(w: World, n: Name)
    requires Validated(w.ports) && n in w.ports
    ensures n !in w.ports[n].buildDependencies
  {
    if n in w.ports[n].buildDependencies {
      ReachesItself(BuildGraph(w.ports), n);
      EdgeAndBackIsCycle(BuildGraph(w.ports), n, n);
    }
  }

  lemma {:induction false} MergedStagesIgnoreOthers(t: Tree, t': Tree, deps: seq<Name>, prefix: Stage)
    requires forall d :: d in deps ==> (d in t.stages <==> d in t'.stages)
    requires forall d :: d in deps && d in t.stages ==> t'.stages[d] == t.stages[d]
    ensures MergedStages(t, deps, prefix) == MergedStages(t', deps, prefix)
    decreases |deps|
  {
    if deps != [] {
      assert deps[0] in deps;
      MergedStagesIgnoreOthers(t, t', deps[1..], if deps[0] in t.stages then Merge(prefix, t.stages[deps[0]]) else prefix);
    }
  }

  // ---- Errors that a validated catalog rules out ----

  lemma {:induction false} NoCircularError(w: World, t: Tree, n: Name, stack: seq<Name>, allowCached: bool)
    requires Validated(w.ports) && n in w.ports
    requires IsWalk(BuildGraph(w.ports), stack + [n])
    ensures var r := Build(w, t, n, stack, allowCached).1;
            r.Err? ==> !r.error.Circular? && !r.error.UnknownDependency?
    decreases w.ports.Keys - Elements(stack), 0, 0
  {
    var g := BuildGraph(w.ports);
    if n in stack {
      assert (stack + [n])[..|stack + [n]| - 1] == stack;
      ClosedChainIsCycle(g, stack + [n]);
    } else if !(allowCached && t.Fresh(w, n)) {
      StackGrows(w.ports.Keys, stack, n);
      hide RunContainer, BuildDependencies, DropInvalid;
      var deps := w.ports[n].buildDependencies;
      assert DependenciesKnown(w.ports, w.ports[n]);
      forall d | d in deps
        ensures IsWalk(g, stack + [n] + [d])
      {
        assert Edge(g, n, d);
        ExtendWalk(g, stack, n, d);
      }
      var dropped := DropInvalid(w, t, n, allowCached);
      NoCircularDependency(w, dropped, deps, stack + [n], map[]);
      var (built, prefix) := BuildDependencies(w, dropped, deps, stack + [n], map[]);
      if prefix.Ok? {
        ContainerErrors(w, built, n, prefix.value);
      }
    }
  }

  lemma ContainerErrors(w: World, t: Tree, n: Name, prefix: Stage)
    ensures var r := RunContainer(w, t, n, prefix).1;
            r.Err? ==> BrokeAt(r, n)
  {
  }

  lemma {:induction false} NoCircularDependency(w: World, t: Tree, deps: seq<Name>, stack: seq<Name>, prefix: Stage)
    requires Validated(w.ports)
    requires forall d :: d in deps ==> d in w.ports && IsWalk(BuildGraph(w.ports), stack + [d])
    ensures var r := BuildDependencies(w, t, deps, stack, prefix).1;
            r.Err? ==> !r.error.Circular? && !r.error.UnknownDependency?
    decreases w.ports.Keys - Elements(stack), 1, |deps|
  {
    if deps != [] {
      NoCircularError(w, t, deps[0], stack, true);
      var (built, stage) := Build(w, t, deps[0], stack, true);
      if stage.Ok? {
        NoCircularDependency(w, built, deps[1..], stack, Merge(prefix, stage.value));
      }
    }
  }

  /** On any catalog, what a call says of it is true: a reported chain is a walk that closes a cycle, and a
      missing dependency is one that the port leads to. */
  ghost predicate TrueOfCatalog(ports: Ports, n: Name, r: Result<Stage, BuildError>) {
    && (r.Err? && r.error.Circular? ==> ClosesCycle(BuildGraph(ports), r.error.chain))
    && (r.Err? && r.error.UnknownDependency? ==> r.error.name !in ports && Reaches(BuildGraph(ports), n, r.error.name))
  }

  lemma {:induction false} CatalogErrorsAreTrue(w: World, t: Tree, n: Name, stack: seq<Name>, allowCached: bool)
    requires n in w.ports && IsWalk(BuildGraph(w.ports), stack + [n])
    ensures TrueOfCatalog(w.ports, n, Build(w, t, n, stack, allowCached).1)
    decreases w.ports.Keys - Elements(stack), 0, 0
  {
    var g := BuildGraph(w.ports);
    if n in stack {
      assert (stack + [n])[..|stack + [n]| - 1] == stack;
    } else if !(allowCached && t.Fresh(w, n)) {
      StackGrows(w.ports.Keys, stack, n);
      hide RunContainer, BuildDependencies, DropInvalid, IsWalk, Reaches;
      var deps := w.ports[n].buildDependencies;
      forall d | d in deps
        ensures Edge(g, n, d) && IsWalk(g, stack + [n] + [d])
      {
        assert Edge(g, n, d);
        ExtendWalk(g, stack, n, d);
      }
      var dropped := DropInvalid(w, t, n, allowCached);
      DependencyErrorsAreTrue(w, dropped, n, deps, stack + [n], map[]);
      var (built, prefix) := BuildDependencies(w, dropped, deps, stack + [n], map[]);
      if prefix.Ok? {
        ContainerErrors(w, built, n, prefix.value);
      }
    }
  }

  lemma {:induction false} DependencyErrorsAreTrue(w: World, t: Tree, n: Name, deps: seq<Name>, stack: seq<Name>,
                                                   prefix: Stage)
    requires forall d :: d in deps ==> Edge(BuildGraph(w.ports), n, d) && IsWalk(BuildGraph(w.ports), stack + [d])
    ensures TrueOfCatalog(w.ports, n, BuildDependencies(w, t, deps, stack, prefix).1)
    decreases w.ports.Keys - Elements(stack), 1, |deps|
  {
    var g := BuildGraph(w.ports);
    hide Build, IsWalk, Reaches;
    if deps != [] {
      var d := deps[0];
      if d !in w.ports {
        ReachesItself(g, d);
        ReachesAfterEdge(g, n, d, d);
      } else {
        CatalogErrorsAreTrue(w, t, d, stack, true);
        var (built, stage) := Build(w, t, d, stack, true);
        if stage.Ok? {
          DependencyErrorsAreTrue(w, built, n, deps[1..], stack, Merge(prefix, stage.value));
        } else if stage.error.UnknownDependency? {
          ReachesAfterEdge(g, n, d, stage.error.name);
        }
      }
    }
  }

  /** A top-level call on a validated catalog: each transitive dependency is run at most once,
      however many paths lead to it, and the recursion never meets its own stack. */
  lemma TopLevelCall(w: World, t: Tree, n: Name, allowCached: bool)
    requires Validated(w.ports) && n in w.ports
    ensures var (t', r) := Build(w, t, n, [], allowCached);
            && t.runs <= t'.runs
            && NoRepeats(NewRuns(t, t'))
            && (forall m :: m in NewRuns(t, t') ==> Reaches(BuildGraph(w.ports), n, m))
            && (forall m :: m in NewRuns(t, t') && t.Fresh(w, m) ==> m == n && !allowCached)
            && (r.Ok? ==> AllServed(w, t, t') && t'.Fresh(w, n) && t'.stages[n] == r.value)
            && (r.Err? ==> !r.error.Circular? && !r.error.UnknownDependency?)
  {
    BuildRunsOnce(w, t, n, [], allowCached);
    RunsOnlyDependencies(w, t, n, [], allowCached);
    assert IsWalk(BuildGraph(w.ports), [] + [n]);
    NoCircularError(w, t, n, [], allowCached);
  }

  /** The call ended in a container run that did not complete. */
  predicate BrokeAt(r: Result<Stage, BuildError>, n: Name) {
    r == Err(ContainerFailed(n)) || r == Err(NoStage(n)) || r == Err(InvalidStage(n))
  }

  // ---- When a call succeeds ----

  /** A container run as it is started: the tree at that moment, the port and the prefix it is given. */
  datatype Start = Start(tree: Tree, name: Name, prefix: Stage)

  /** The container runs that a call starts, in order. */
  function Started(w: World, t: Tree, n: Name, stack: seq<Name>, allowCached: bool): seq<Start>
    requires n in w.ports
    decreases w.ports.Keys - Elements(stack), 0, 0
  {
    if n in stack || (allowCached && t.Fresh(w, n)) then []
    else
      StackGrows(w.ports.Keys, stack, n);
      var dropped, deps := DropInvalid(w, t, n, allowCached), w.ports[n].buildDependencies;
      var (built, prefix) := BuildDependencies(w, dropped, deps, stack + [n], map[]);
      StartedForDependencies(w, dropped, deps, stack + [n], map[])
      + (if prefix.Ok? then [Start(built, n, prefix.value)] else [])
  }

  function StartedForDependencies(w: World, t: Tree, deps: seq<Name>, stack: seq<Name>, prefix: Stage): seq<Start>
    decreases w.ports.Keys - Elements(stack), 1, |deps|
  {
    if deps == [] || deps[0] !in w.ports then []
    else
      var (built, stage) := Build(w, t, deps[0], stack, true);
      Started(w, t, deps[0], stack, true)
      + (if stage.Ok? then StartedForDependencies(w, built, deps[1..], stack, Merge(prefix, stage.value)) else [])
  }

  /** The run does not finish with a stage that validates. */
  predicate Breaks(w: World, n: Name, prefix: Stage) {
    match w.container(n, prefix)
    case Finished(Some(stage)) => !w.valid(n, stage)
    case _ => true
  }

  /** What is reported of such a run. */
  function Complaint(w: World, n: Name, prefix: Stage): BuildError {
    match w.container(n, prefix)
    case Finished(Some(_)) => InvalidStage(n)
    case Finished(None) => NoStage(n)
    case _ => ContainerFailed(n)
  }

  lemma ContainerSucceedsExactly(w: World, t: Tree, n: Name, prefix: Stage)
    ensures var (t', r) := RunContainer(w, t, n, prefix);
            && t'.runs == t.runs + [n]
            && (r.Ok? <==> !Breaks(w, n, prefix))
            && (r.Ok? ==> w.container(n, prefix) == Finished(Some(r.value)) && t'.Fresh(w, n))
            && (r.Err? ==> r.error == Complaint(w, n, prefix))
  {
  }

  predicate StartBreaks(w: World, start: Start) {
    Breaks(w, start.name, start.prefix)
  }

  /** The call was stopped by the catalog rather than by a container. */
  predicate StoppedByCatalog(r: Result<Stage, BuildError>) {
    r.Err? && (r.error.Circular? || r.error.UnknownDependency?)
  }

  /** The result is settled by the runs that were started: either none broke and the catalog did not stop
      the call, or the last one, and only that one, broke and is what the call complains of. */
  ghost predicate SettledBy(w: World, starts: seq<Start>, r: Result<Stage, BuildError>) {
    && (r.Ok? || StoppedByCatalog(r) <==> forall s :: s in starts ==> !StartBreaks(w, s))
    && (forall i :: 0 <= i < |starts| - 1 ==> !StartBreaks(w, starts[i]))
    && (r.Err? && !StoppedByCatalog(r) ==>
          && starts != []
          && var last := starts[|starts| - 1];
             StartBreaks(w, last) && r.error == Complaint(w, last.name, last.prefix))
  }

  /** The log names exactly the runs that were started. */
  predicate Logged(t: Tree, t': Tree, starts: seq<Start>) {
    t'.runs == t.runs + StartNames(starts)
  }

  function StartNames(starts: seq<Start>): seq<Name> {
    seq(|starts|, i requires 0 <= i < |starts| => starts[i].name)
  }

  lemma {:induction false} BuildIsSettled(w: World, t: Tree, n: Name, stack: seq<Name>, allowCached: bool)
    requires n in w.ports
    ensures var (t', r) := Build(w, t, n, stack, allowCached);
            var starts := Started(w, t, n, stack, allowCached);
            SettledBy(w, starts, r) && Logged(t, t', starts)
    decreases w.ports.Keys - Elements(stack), 0, 0
  {
    if n !in stack && !(allowCached && t.Fresh(w, n)) {
      StackGrows(w.ports.Keys, stack, n);
      var dropped, deps := DropInvalid(w, t, n, allowCached), w.ports[n].buildDependencies;
      assert dropped.runs == t.runs;
      hide RunContainer, BuildDependencies, StartedForDependencies, DropInvalid, SettledBy, Logged, Tree.Fresh;
      DependenciesAreSettled(w, dropped, deps, stack + [n], map[]);
      var (built, prefix) := BuildDependencies(w, dropped, deps, stack + [n], map[]);
      var starts := StartedForDependencies(w, dropped, deps, stack + [n], map[]);
      if prefix.Ok? {
        ContainerSucceedsExactly(w, built, n, prefix.value);
        SettledByLast(w, starts, prefix, Start(built, n, prefix.value), RunContainer(w, built, n, prefix.value).1);
        LoggedOneMore(t, built, RunContainer(w, built, n, prefix.value).0, starts, Start(built, n, prefix.value));
      } else {
        assert starts + [] == starts;
        LoggedFrom(t, dropped, built, starts);
      }
    } else {
      assert t.runs + StartNames([]) == t.runs;
    }
  }

  lemma SettledByLast(w: World, starts: seq<Start>, r: Result<Stage, BuildError>, last: Start, r': Result<Stage, BuildError>)
    requires SettledBy(w, starts, r) && r.Ok?
    requires r'.Ok? <==> !StartBreaks(w, last)
    requires r'.Err? ==> r'.error == Complaint(w, last.name, last.prefix)
    ensures SettledBy(w, starts + [last], r')
  {
    var all := starts + [last];
    assert all[|starts|] == last && last in all;
    assert forall s :: s in all <==> s in starts || s == last;
    assert forall i :: 0 <= i < |starts| ==> all[i] in starts;
    hide StartBreaks;
  }

  lemma SettledInOrder(w: World, first: seq<Start>, r: Result<Stage, BuildError>,
                       more: seq<Start>, r': Result<Stage, BuildError>)
    requires SettledBy(w, first, r) && r.Ok? && SettledBy(w, more, r')
    ensures SettledBy(w, first + more, r')
  {
    var all := first + more;
    assert forall s :: s in all <==> s in first || s in more;
    forall i | 0 <= i < |all| - 1
      ensures !StartBreaks(w, all[i])
    {
      if i < |first| {
        assert all[i] in first;
      } else if i - |first| == |more| - 1 {
        assert false;
      }
    }
    hide StartBreaks;
    assert more != [] ==> all[|all| - 1] == more[|more| - 1];
  }

  lemma LoggedOneMore(t: Tree, built: Tree, t': Tree, starts: seq<Start>, last: Start)
    requires exists dropped: Tree :: dropped.runs == t.runs && Logged(dropped, built, starts)
    requires t'.runs == built.runs + [last.name]
    ensures Logged(t, t', starts + [last])
  {
    assert StartNames(starts + [last]) == StartNames(starts) + [last.name];
  }

  lemma LoggedFrom(t: Tree, dropped: Tree, built: Tree, starts: seq<Start>)
    requires dropped.runs == t.runs && Logged(dropped, built, starts)
    ensures Logged(t, built, starts)
  {
  }

  lemma LoggedInOrder(t: Tree, mid: Tree, t': Tree, first: seq<Start>, more: seq<Start>)
    requires Logged(t, mid, first) && Logged(mid, t', more)
    ensures Logged(t, t', first + more)
  {
    assert StartNames(first + more) == StartNames(first) + StartNames(more);
  }

  lemma {:induction false} DependenciesAreSettled(w: World, t: Tree, deps: seq<Name>, stack: seq<Name>, prefix: Stage)
    ensures var (t', r) := BuildDependencies(w, t, deps, stack, prefix);
            var starts := StartedForDependencies(w, t, deps, stack, prefix);
            SettledBy(w, starts, r) && Logged(t, t', starts)
    decreases w.ports.Keys - Elements(stack), 1, |deps|
  {
    if deps == [] || deps[0] !in w.ports {
      assert t.runs + StartNames([]) == t.runs;
    } else {
      hide Build, Started, SettledBy, Logged;
      BuildIsSettled(w, t, deps[0], stack, true);
      var (built, stage) := Build(w, t, deps[0], stack, true);
      var first := Started(w, t, deps[0], stack, true);
      if stage.Ok? {
        var merged := Merge(prefix, stage.value);
        DependenciesAreSettled(w, built, deps[1..], stack, merged);
        var (t', r) := BuildDependencies(w, built, deps[1..], stack, merged);
        var more := StartedForDependencies(w, built, deps[1..], stack, merged);
        SettledInOrder(w, first, stage, more, r);
        LoggedInOrder(t, built, t', first, more);
      } else {
        assert first + [] == first;
      }
    }
  }

  /** On a validated catalog a top-level call fails exactly if a container that it starts does not finish with a
      stage that validates; it stops at that one and reports how it ended. */
  lemma BuildFailsExactly(w: World, t: Tree, n: Name, allowCached: bool)
    requires Validated(w.ports) && n in w.ports
    ensures var r := Build(w, t, n, [], allowCached).1;
            var starts := Started(w, t, n, [], allowCached);
            && (r.Err? <==> exists s :: s in starts && StartBreaks(w, s))
            && (r.Err? ==> starts != [] && var last := starts[|starts| - 1];
                           StartBreaks(w, last) && r.error == Complaint(w, last.name, last.prefix))
  {
    assert IsWalk(BuildGraph(w.ports), [] + [n]);
    NoCircularError(w, t, n, [], allowCached);
    BuildIsSettled(w, t, n, [], allowCached);
  }

  /** In particular, if the containers of the port and of all that it depends on complete, whatever prefix they
      are given, the call succeeds. */
  lemma CompletingContainersBuild(w: World, t: Tree, n: Name, allowCached: bool)
    requires Validated(w.ports) && n in w.ports
    requires forall m, prefix :: Reaches(BuildGraph(w.ports), n, m) ==> !Breaks(w, m, prefix)
    ensures Build(w, t, n, [], allowCached).1.Ok?
  {
    hide Build, Breaks, Reaches;
    BuildFailsExactly(w, t, n, allowCached);
    BuildIsSettled(w, t, n, [], allowCached);
    RunsOnlyDependencies(w, t, n, [], allowCached);
    var t' := Build(w, t, n, [], allowCached).0;
    var starts := Started(w, t, n, [], allowCached);
    forall s | s in starts
      ensures !StartBreaks(w, s)
    {
      var i :| 0 <= i < |starts| && starts[i] == s;
      assert NewRuns(t, t') == StartNames(starts);
      assert StartNames(starts)[i] == s.name;
      assert s.name in NewRuns(t, t');
    }
  }

  // ---- Markers vouch for stages ----

  /** What can be told when a container starts: the port has a marker, and the run will break and leave a stage
      that no build under that marker completed with. */
  predicate Spoils(w: World, t: Tree, n: Name, prefix: Stage) {
    n in t.markers &&
    match w.container(n, prefix)
    case Aborted(Some(left)) => Completed(n, t.markers[n], left) !in t.completed
    case Finished(Some(stage)) => !w.valid(n, stage) && Completed(n, t.markers[n], stage) !in t.completed
    case _ => false
  }

  /** A container run settles whether its own port is vouched for, unless it does not get under way. */
  lemma ContainerVouchesExactly(w: World, t: Tree, n: Name, prefix: Stage)
    ensures var (t', r) := RunContainer(w, t, n, prefix);
            && (t'.Vouched(n) <==> if w.container(n, prefix).Unstarted? then t.Vouched(n) else !Spoils(w, t, n, prefix))
            && (forall m :: m != n ==> (t'.Vouched(m) <==> t.Vouched(m)) && (m in t'.markers <==> m in t.markers))
            && t.completed <= t'.completed
            && (r.Ok? ==>
                  && Completed(n, w.fingerprint(n), r.value) in t'.completed && w.valid(n, r.value)
                  && !Spoils(w, t, n, prefix))
  {
  }

  lemma ContainerIsCoherentExactly(w: World, t: Tree, n: Name, prefix: Stage)
    requires t.Coherent()
    ensures RunContainer(w, t, n, prefix).0.Coherent() <==> !Spoils(w, t, n, prefix)
  {
    var t' := RunContainer(w, t, n, prefix).0;
    ContainerVouchesExactly(w, t, n, prefix);
    assert Spoils(w, t, n, prefix) ==> n in t'.markers;
    assert t.Vouched(n);
    hide RunContainer, Spoils, Tree.Vouched;
  }

  predicate StartSpoils(w: World, start: Start) {
    Spoils(w, start.tree, start.name, start.prefix)
  }

  ghost predicate SomeSpoils(w: World, starts: seq<Start>) {
    exists s :: s in starts && StartSpoils(w, s)
  }

  lemma SomeSpoilsOfConcat(w: World, a: seq<Start>, b: seq<Start>)
    ensures SomeSpoils(w, a + b) <==> SomeSpoils(w, a) || SomeSpoils(w, b)
    ensures !SomeSpoils(w, [])
    ensures forall s :: SomeSpoils(w, [s]) <==> StartSpoils(w, s)
  {
    hide StartSpoils;
    assert forall s :: s in a + b <==> s in a || s in b;
    forall s
      ensures SomeSpoils(w, [s]) <==> StartSpoils(w, s)
    {
      assert s in [s];
    }
  }

  /** Some container that the call starts spoils its port. */
  ghost predicate CallSpoils(w: World, t: Tree, n: Name, stack: seq<Name>, allowCached: bool)
    requires n in w.ports
  {
    SomeSpoils(w, Started(w, t, n, stack, allowCached))
  }

  /** A call keeps the markers truthful exactly if no container that it starts spoils its port. */
  lemma {:induction false} BuildIsCoherentExactly(w: World, t: Tree, n: Name, stack: seq<Name>, allowCached: bool)
    requires n in w.ports && t.Coherent()
    ensures var (t', r) := Build(w, t, n, stack, allowCached);
            && (t'.Coherent() <==> !CallSpoils(w, t, n, stack, allowCached))
            && (r.Ok? ==> t'.Coherent())
    decreases w.ports.Keys - Elements(stack), 0, 0
  {
    if n !in stack && !(allowCached && t.Fresh(w, n)) {
      StackGrows(w.ports.Keys, stack, n);
      var dropped, deps := DropInvalid(w, t, n, allowCached), w.ports[n].buildDependencies;
      DropKeepsCoherence(w, t, n, allowCached);
      hide RunContainer, DropInvalid, BuildDependencies, StartedForDependencies, Tree.Coherent, Spoils, SomeSpoils;
      DependenciesAreCoherentExactly(w, dropped, deps, stack + [n], map[]);
      var (built, prefix) := BuildDependencies(w, dropped, deps, stack + [n], map[]);
      var starts := StartedForDependencies(w, dropped, deps, stack + [n], map[]);
      if prefix.Ok? {
        ContainerIsCoherentExactly(w, built, n, prefix.value);
        ContainerVouchesExactly(w, built, n, prefix.value);
        SomeSpoilsOfConcat(w, starts, [Start(built, n, prefix.value)]);
      } else {
        assert starts + [] == starts;
      }
    } else {
      assert !SomeSpoils(w, []);
    }
  }

  lemma DropKeepsCoherence(w: World, t: Tree, n: Name, allowCached: bool)
    requires t.Coherent()
    ensures DropInvalid(w, t, n, allowCached).Coherent()
  {
    assert forall m :: m in DropInvalid(w, t, n, allowCached).markers ==> t.Vouched(m);
  }

  lemma {:induction false} DependenciesAreCoherentExactly(w: World, t: Tree, deps: seq<Name>, stack: seq<Name>,
                                                          prefix: Stage)
    requires t.Coherent()
    ensures var (t', r) := BuildDependencies(w, t, deps, stack, prefix);
            && (t'.Coherent() <==> !SomeSpoils(w, StartedForDependencies(w, t, deps, stack, prefix)))
            && (r.Ok? ==> t'.Coherent())
    decreases w.ports.Keys - Elements(stack), 1, |deps|
  {
    if deps != [] && deps[0] in w.ports {
      hide Build, Started, Tree.Coherent, SomeSpoils;
      BuildIsCoherentExactly(w, t, deps[0], stack, true);
      var (built, stage) := Build(w, t, deps[0], stack, true);
      var first := Started(w, t, deps[0], stack, true);
      if stage.Ok? {
        var merged := Merge(prefix, stage.value);
        DependenciesAreCoherentExactly(w, built, deps[1..], stack, merged);
        SomeSpoilsOfConcat(w, first, StartedForDependencies(w, built, deps[1..], stack, merged));
      } else {
        assert first + [] == first;
      }
    } else {
      assert !SomeSpoils(w, []);
    }
  }

  /** No container run of this world fails after clearing the stage, unless it leaves no stage at all. */
  ghost predicate BreaksCleanly(w: World) {
    forall n: Name, prefix: Stage ::
      match w.container(n, prefix)
      case Aborted(left) => left.None?
      case Finished(Some(stage)) => w.valid(n, stage)
      case _ => true
  }

  lemma CleanWorldsDoNotSpoil(w: World, t: Tree, n: Name, stack: seq<Name>, allowCached: bool)
    requires n in w.ports && BreaksCleanly(w)
    ensures !CallSpoils(w, t, n, stack, allowCached)
  {
    hide BreaksCleanly, Spoils, Started;
    forall s | s in Started(w, t, n, stack, allowCached)
      ensures !StartSpoils(w, s)
    {
      CleanContainerDoesNotSpoil(w, s.tree, s.name, s.prefix);
    }
  }

  lemma CleanContainerDoesNotSpoil(w: World, t: Tree, n: Name, prefix: Stage)
    requires BreaksCleanly(w)
    ensures !Spoils(w, t, n, prefix)
  {
    var run := w.container(n, prefix);
  }

  // ---- Whole runs ----

  /** One top-level call, in the world as it was at that moment. */
  datatype Request = Request(world: World, name: Name, allowCached: bool)

  function Serve(t: Tree, q: Request): (Tree, Result<Stage, BuildError>) {
    if q.name in q.world.ports then Build(q.world, t, q.name, [], q.allowCached)
    else (t, Err(BuildError.UnknownDependency(q.name)))
  }

  function After(t: Tree, requests: seq<Request>): Tree {
    if requests == [] then t else Serve(After(t, requests[..|requests| - 1]), requests[|requests| - 1]).0
  }

  ghost predicate RequestSpoils(t: Tree, q: Request) {
    q.name in q.world.ports && CallSpoils(q.world, t, q.name, [], q.allowCached)
  }

  ghost predicate NothingSpoilt(requests: seq<Request>) {
    forall k :: 0 <= k < |requests| ==> !RequestSpoils(After(EMPTY_TREE, requests[..k]), requests[k])
  }

  /** A stage that the call returns is valid, and a build with the fingerprint current at the call completed with it. */
  ghost predicate ReturnsCompleted(t: Tree, q: Request) {
    var (t', r) := Serve(t, q);
    r.Ok? ==>
      && q.world.valid(q.name, r.value)
      && Completed(q.name, q.world.fingerprint(q.name), r.value) in t'.completed
  }

  /** In any tree whatever, only a stage served from the cache can fail to be a completed one. */
  lemma ReturnsCompletedExactly(t: Tree, q: Request)
    ensures ReturnsCompleted(t, q)
            <==> !(&& q.name in q.world.ports && q.allowCached
                   && t.Fresh(q.world, q.name) && !t.Vouched(q.name))
  {
    hide BuildDependencies, RunContainer, DropInvalid;
    var w, n := q.world, q.name;
    if n in w.ports && !(q.allowCached && t.Fresh(w, n)) {
      var dropped := DropInvalid(w, t, n, q.allowCached);
      var (built, prefix) := BuildDependencies(w, dropped, w.ports[n].buildDependencies, [] + [n], map[]);
      if prefix.Ok? {
        ContainerVouchesExactly(w, built, n, prefix.value);
      }
    }
  }

  /** A tree is coherent exactly if every call that could come next returns a completed stage only. */
  lemma NextCallExactly(t: Tree)
    ensures (forall q :: ReturnsCompleted(t, q)) <==> t.Coherent()
  {
    if t.Coherent() {
      forall q
        ensures ReturnsCompleted(t, q)
      {
        ReturnsCompletedExactly(t, q);
      }
    }
    if forall q :: ReturnsCompleted(t, q) {
      forall n | n in t.markers
        ensures t.Vouched(n)
      {
        var ports := map[n := Port(n, "1", "1", true, [], [], None)];
        var w := World(ports, m => t.markers[n], (m, stage) => true, (m, prefix) => Unstarted);
        var q := Request(w, n, true);
        assert ReturnsCompleted(t, q);
        ReturnsCompletedExactly(t, q);
      }
    }
  }

  lemma ServeIsCoherentExactly(t: Tree, q: Request)
    requires t.Coherent()
    ensures Serve(t, q).0.Coherent() <==> !RequestSpoils(t, q)
  {
    if q.name in q.world.ports {
      BuildIsCoherentExactly(q.world, t, q.name, [], q.allowCached);
    }
  }

  lemma {:induction false} CoherentRuns(requests: seq<Request>)
    requires NothingSpoilt(requests)
    ensures After(EMPTY_TREE, requests).Coherent()
  {
    hide Tree.Coherent, RequestSpoils, Serve;
    if requests != [] {
      var k := |requests| - 1;
      var before := requests[..k];
      forall i | 0 <= i < k
        ensures !RequestSpoils(After(EMPTY_TREE, before[..i]), before[i])
      {
        assert before[..i] == requests[..i];
      }
      CoherentRuns(before);
      ServeIsCoherentExactly(After(EMPTY_TREE, before), requests[k]);
    } else {
      EmptyIsCoherent();
    }
  }

  lemma EmptyIsCoherent()
    ensures EMPTY_TREE.Coherent()
  {
  }

  lemma {:induction false} CoherentRunsExactly(requests: seq<Request>)
    ensures (forall k :: 0 <= k <= |requests| ==> After(EMPTY_TREE, requests[..k]).Coherent())
            <==> NothingSpoilt(requests)
  {
    hide Tree.Coherent, RequestSpoils, Serve;
    if forall k :: 0 <= k <= |requests| ==> After(EMPTY_TREE, requests[..k]).Coherent() {
      forall k | 0 <= k < |requests|
        ensures !RequestSpoils(After(EMPTY_TREE, requests[..k]), requests[k])
      {
        assert requests[..k + 1][..k] == requests[..k];
        assert After(EMPTY_TREE, requests[..k]).Coherent() && After(EMPTY_TREE, requests[..k + 1]).Coherent();
        ServeIsCoherentExactly(After(EMPTY_TREE, requests[..k]), requests[k]);
      }
    }
    if NothingSpoilt(requests) {
      forall k | 0 <= k <= |requests|
        ensures After(EMPTY_TREE, requests[..k]).Coherent()
      {
        forall i | 0 <= i < |requests[..k]|
          ensures !RequestSpoils(After(EMPTY_TREE, requests[..k][..i]), requests[..k][i])
        {
          assert requests[..k][..i] == requests[..i];
        }
        CoherentRuns(requests[..k]);
      }
    }
  }

  /** At every point of a run, whatever is asked next is answered with a completed stage only, exactly if no
      container run of the run spoilt its port. */
  lemma NextCallsAreSafeExactly(requests: seq<Request>)
    ensures (forall k, q :: 0 <= k <= |requests| ==> ReturnsCompleted(After(EMPTY_TREE, requests[..k]), q))
            <==> NothingSpoilt(requests)
  {
    hide ReturnsCompleted, Tree.Coherent, After, NothingSpoilt;
    CoherentRunsExactly(requests);
    forall k | 0 <= k <= |requests|
      ensures After(EMPTY_TREE, requests[..k]).Coherent()
              <==> forall q :: ReturnsCompleted(After(EMPTY_TREE, requests[..k]), q)
    {
      NextCallExactly(After(EMPTY_TREE, requests[..k]));
    }
    assert (forall k, q :: 0 <= k <= |requests| ==> ReturnsCompleted(After(EMPTY_TREE, requests[..k]), q))
           <==> (forall k :: 0 <= k <= |requests| ==> After(EMPTY_TREE, requests[..k]).Coherent());
  }

  /** In particular where no container run fails after clearing the stage and leaving another. */
  lemma CleanRunsAreSafe(requests: seq<Request>)
    requires forall q :: q in requests ==> BreaksCleanly(q.world)
    ensures NothingSpoilt(requests)
  {
    forall k | 0 <= k < |requests|
      ensures !RequestSpoils(After(EMPTY_TREE, requests[..k]), requests[k])
    {
      var q := requests[k];
      if q.name in q.world.ports {
        CleanWorldsDoNotSpoil(q.world, After(EMPTY_TREE, requests[..k]), q.name, [], q.allowCached);
      }
    }
  }

  // ---- What a run itself returns ----

  /** What is remembered of the port's last container run agrees with its stage and marker on disk. */
  predicate RememberedAt(t: Tree, n: Name) {
    && (n in t.stages ==> n in t.last)
    && (n in t.last ==>
          match t.last[n]
          case Broke(left) => if left.None? then n !in t.stages else n in t.stages && t.stages[n] == left.value
          case Kept => n in t.stages && t.Vouched(n))
  }

  ghost predicate Remembers(t: Tree) {
    forall n :: RememberedAt(t, n)
  }

  /** The last container run that got under way broke, over a marker that does not vouch for what it left. */
  predicate BrokenUnderMarker(t: Tree, n: Name) {
    && n in t.last && t.last[n].Broke? && t.last[n].left.Some?
    && n in t.markers && Completed(n, t.markers[n], t.last[n].left.value) !in t.completed
  }

  lemma UnvouchedExactly(t: Tree, n: Name)
    requires Remembers(t)
    ensures !t.Vouched(n) <==> BrokenUnderMarker(t, n)
  {
    assert RememberedAt(t, n);
  }

  lemma ContainerIsRemembered(w: World, t: Tree, n: Name, prefix: Stage)
    requires Remembers(t)
    ensures Remembers(RunContainer(w, t, n, prefix).0)
  {
    forall m
      ensures RememberedAt(RunContainer(w, t, n, prefix).0, m)
    {
      assert RememberedAt(t, m);
      if m == n {
        ContainerRemembersItself(w, t, n, prefix);
      } else {
        ContainerForgetsNoOther(w, t, n, prefix, m);
      }
    }
  }

  lemma ContainerRemembersItself(w: World, t: Tree, n: Name, prefix: Stage)
    requires RememberedAt(t, n)
    ensures RememberedAt(RunContainer(w, t, n, prefix).0, n)
  {
  }

  lemma ContainerForgetsNoOther(w: World, t: Tree, n: Name, prefix: Stage, m: Name)
    requires RememberedAt(t, m) && m != n
    ensures RememberedAt(RunContainer(w, t, n, prefix).0, m)
  {
  }

  lemma DropIsRemembered(w: World, t: Tree, n: Name, allowCached: bool)
    requires Remembers(t)
    ensures Remembers(DropInvalid(w, t, n, allowCached))
  {
    assert forall m :: RememberedAt(t, m) ==> RememberedAt(DropInvalid(w, t, n, allowCached), m);
  }

  lemma {:induction false} BuildIsRemembered(w: World, t: Tree, n: Name, stack: seq<Name>, allowCached: bool)
    requires n in w.ports && Remembers(t)
    ensures Remembers(Build(w, t, n, stack, allowCached).0)
    decreases w.ports.Keys - Elements(stack), 0, 0
  {
    if n !in stack && !(allowCached && t.Fresh(w, n)) {
      StackGrows(w.ports.Keys, stack, n);
      var dropped, deps := DropInvalid(w, t, n, allowCached), w.ports[n].buildDependencies;
      DropIsRemembered(w, t, n, allowCached);
      hide RunContainer, BuildDependencies, Remembers;
      DependenciesAreRemembered(w, dropped, deps, stack + [n], map[]);
      var (built, prefix) := BuildDependencies(w, dropped, deps, stack + [n], map[]);
      if prefix.Ok? {
        ContainerIsRemembered(w, built, n, prefix.value);
      }
    }
  }

  lemma {:induction false} DependenciesAreRemembered(w: World, t: Tree, deps: seq<Name>, stack: seq<Name>, prefix: Stage)
    requires Remembers(t)
    ensures Remembers(BuildDependencies(w, t, deps, stack, prefix).0)
    decreases w.ports.Keys - Elements(stack), 1, |deps|
  {
    hide Remembers, Build;
    if deps != [] && deps[0] in w.ports {
      BuildIsRemembered(w, t, deps[0], stack, true);
      var (built, stage) := Build(w, t, deps[0], stack, true);
      if stage.Ok? {
        DependenciesAreRemembered(w, built, deps[1..], stack, Merge(prefix, stage.value));
      }
    }
  }

  lemma {:induction false} RunsAreRemembered(requests: seq<Request>)
    ensures Remembers(After(EMPTY_TREE, requests))
  {
    if requests != [] {
      var k := |requests| - 1;
      RunsAreRemembered(requests[..k]);
      hide Remembers;
      var q := requests[k];
      if q.name in q.world.ports {
        BuildIsRemembered(q.world, After(EMPTY_TREE, requests[..k]), q.name, [], q.allowCached);
      }
    }
  }

  /** On every run, a call returns a completed stage exactly unless it is served from the cache at a port
      whose last container run broke under a marker that does not vouch for its remains. */
  lemma ReturnedStagesAreCompleted(requests: seq<Request>, q: Request)
    ensures var t := After(EMPTY_TREE, requests);
            ReturnsCompleted(t, q)
            <==> !(&& q.name in q.world.ports && q.allowCached
                   && t.Fresh(q.world, q.name) && BrokenUnderMarker(t, q.name))
  {
    hide After, ReturnsCompleted, Remembers;
    RunsAreRemembered(requests);
    ReturnsCompletedExactly(After(EMPTY_TREE, requests), q);
    UnvouchedExactly(After(EMPTY_TREE, requests), q.name);
  }

  // ---- A false marker in action ----

  function SoloWorld(run: ContainerRun): World {
    var ports := map["p" := Port("p", "1", "1", true, [], [], None)];
    World(ports, n => "f", (n, stage) => true, (n, prefix) => run)
  }

  /** A rebuild aborted over a completed build leaves the old marker beside a partial stage.
      The next cached call returns that stage, although no build of it ever completed. */
  lemma PartialStageIsServed(full: Stage, partial: Stage)
    requires full != partial
    ensures var requests := [Request(SoloWorld(Finished(Some(full))), "p", false),
                             Request(SoloWorld(Aborted(Some(partial))), "p", false)];
            var (t, r) := Serve(After(EMPTY_TREE, requests), Request(SoloWorld(Unstarted), "p", true));
            && r == Ok(partial)
            && Completed("p", "f", partial) !in t.completed
  {
    var first := Request(SoloWorld(Finished(Some(full))), "p", false);
    var second := Request(SoloWorld(Aborted(Some(partial))), "p", false);
    assert [first, second][..1] == [first] && [first][..0] == [];
    assert After(EMPTY_TREE, []) == EMPTY_TREE;
    var built := After(EMPTY_TREE, [first]);
    assert built == Serve(EMPTY_TREE, first).0;
    assert built.markers == map["p" := "f"] && built.completed == {Completed("p", "f", full)};
    var broken := After(EMPTY_TREE, [first, second]);
    assert broken == Serve(built, second).0;
    assert broken.markers == built.markers && broken.stages["p"] == partial;
  }

  // ---- The driver itself ----

  class Builder {
    var markers: map<Name, Fingerprint>
    var stages: map<Name, Stage>
    ghost var runs: seq<Name>
    ghost var completed: set<Completed>
    ghost var last: map<Name, LastRun>

    constructor ()
      ensures State() == EMPTY_TREE
    {
      markers, stages, runs, completed, last := map[], map[], [], {}, map[];
    }

    ghost function State(): Tree
      reads this
    {
      Tree(markers, stages, runs, completed, last)
    }

    method BuildPort(w: World, n: Name, dependencyStack: seq<Name>, allowCached: bool)
        returns (r: Result<Stage, BuildError>)
      requires n in w.ports
      modifies this
      ensures (State(), r) == Build(w, old(State()), n, dependencyStack, allowCached)
      decreases w.ports.Keys - Elements(dependencyStack)
    {
      if n in dependencyStack {
        return Err(Circular(dependencyStack + [n]));
      }
      var fingerprint := w.fingerprint(n);
      if allowCached && n in markers && n in stages {
        if markers[n] == fingerprint {
          if w.valid(n, stages[n]) {
            return Ok(stages[n]);
          }
          markers := markers - {n};
        }
      }
      ghost var dropped := State();
      assert dropped == DropInvalid(w, old(State()), n, allowCached);
      StackGrows(w.ports.Keys, dependencyStack, n);
      var deps := w.ports[n].buildDependencies;
      var prefix: Stage := map[];
      for i := 0 to |deps|
        invariant BuildDependencies(w, dropped, deps, dependencyStack + [n], map[])
                  == BuildDependencies(w, State(), deps[i..], dependencyStack + [n], prefix)
      {
        if deps[i] !in w.ports {
          return Err(BuildError.UnknownDependency(deps[i]));
        }
        assert deps[i..][0] == deps[i] && deps[i..][1..] == deps[i + 1..];
        var stage := BuildPort(w, deps[i], dependencyStack + [n], true);
        if stage.Err? {
          return stage;
        }
        prefix := Merge(prefix, stage.value);
      }
      ghost var built := State();
      runs := runs + [n];
      match w.container(n, prefix) {
        case Unstarted =>
          return Err(ContainerFailed(n));
        case Aborted(left) =>
          stages := PutStage(stages, n, left);
          last := last[n := Broke(left)];
          return Err(ContainerFailed(n));
        case Finished(None) =>
          stages := stages - {n};
          last := last[n := Broke(None)];
          return Err(NoStage(n));
        case Finished(Some(stage)) =>
          stages := stages[n := stage];
          if !w.valid(n, stage) {
            last := last[n := Broke(Some(stage))];
            return Err(InvalidStage(n));
          }
          markers := markers[n := fingerprint];
          completed := completed + {Completed(n, fingerprint, stage)};
          last := last[n := Kept];
          return Ok(stage);
      }
    }

    /** `process_batch`: every port of the batch in turn, failures noted and passed over. */
    method ProcessBatch(w: World, names: seq<Name>) returns (passed: seq<bool>)
      requires Validated(w.ports) && forall n :: n in names ==> n in w.ports
      modifies this
      ensures (State(), passed) == Batch(w, old(State()), names)
    {
      passed := [];
      for i := 0 to |names|
        invariant (State(), passed) == Batch(w, old(State()), names[..i])
      {
        var r := BuildPort(w, names[i], [], false);
        assert names[..i + 1][..i] == names[..i];
        passed := passed + [r.Ok?];
      }
      assert names[..|names|] == names;
    }
  }

  function Batch(w: World, t: Tree, names: seq<Name>): (Tree, seq<bool>) {
    if names == [] then (t, [])
    else
      var k := |names| - 1;
      var (before, passed) := Batch(w, t, names[..k]);
      var (after, r) := Serve(before, Request(w, names[k], false));
      (after, passed + [r.Ok?])
  }

  function BatchRequests(w: World, names: seq<Name>): seq<Request> {
    seq(|names|, i requires 0 <= i < |names| => Request(w, names[i], false))
  }

  /** A batch is the run of its ports as uncached requests: one failure does not stop it. */
  lemma {:induction false} BatchIsARun(w: World, t: Tree, names: seq<Name>)
    ensures Batch(w, t, names).0 == After(t, BatchRequests(w, names))
    ensures |Batch(w, t, names).1| == |names|
    ensures forall i :: 0 <= i < |names| ==>
              (Batch(w, t, names).1[i] <==> Serve(After(t, BatchRequests(w, names)[..i]), BatchRequests(w, names)[i]).1.Ok?)
  {
    hide Serve;
    if names != [] {
      var k := |names| - 1;
      BatchIsARun(w, t, names[..k]);
      var requests := BatchRequests(w, names);
      assert requests[..k] == BatchRequests(w, names[..k]);
      forall i | 0 <= i < |names|
        ensures Batch(w, t, names).1[i] <==> Serve(After(t, requests[..i]), requests[i]).1.Ok?
      {
        if i < k {
          assert requests[..i] == requests[..k][..i];
        }
      }
    }
  }
}
