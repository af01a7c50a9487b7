/** `runtime_bundle_dependencies` of scripts/ports.py: the postorder closure of
    a port over its executable dependencies. */
module RuntimeClosure {
  import opened Graphs
  import opened Wrappers
  import opened Catalog

  datatype ClosureError =
    | CircularRuntime(chain: seq<Name>)
    | UnknownPort(name: Name)
    | NoCommands(root: Name, name: Name)

  /** The names the closure must cover: everything reachable from the root's direct dependencies. */
  ghost predicate Needed(ports: Ports, root: Name, n: Name)
    requires root in ports
  {
    ReachableFrom(ExecGraph(ports), ports[root].ExecDependencies(), n)
  }

  /** A name the closure can hold. */
  ghost predicate Bundleable(ports: Ports, n: Name) {
    n in ports && ports[n].UserVisible() && !OnCycle(ExecGraph(ports), n)
  }

  /** What a successful closure returns. */
  ghost predicate IsClosure(ports: Ports, root: Name, ordered: seq<Name>)
    requires root in ports
  {
    && (forall n :: n in ordered <==> Needed(ports, root, n))
    && FinishOrder(ExecGraph(ports), ordered)
    && root !in ordered
  }

  /** What the visit keeps. The root heads every chain but is not itself being visited. */
  ghost predicate Tracks(ports: Ports, root: Name, chain: seq<Name>,
                         visiting: set<Name>, visited: set<Name>, ordered: seq<Name>) {
    && root in ports
    && visiting == Elements(chain)
    && visited == Elements(ordered)
    && visiting !! visited
    && visiting <= ports.Keys
    && FinishOrder(ExecGraph(ports), ordered)
    && forall n :: n in ordered ==> Needed(ports, root, n) && n in ports && ports[n].UserVisible()
  }

  lemma Entered(ports: Ports, root: Name, chain: seq<Name>, visiting: set<Name>, visited: set<Name>,
                ordered: seq<Name>, name: Name)
    requires Tracks(ports, root, chain, visiting, visited, ordered)
    requires name in ports && name !in visited
    ensures Tracks(ports, root, chain + [name], visiting + {name}, visited, ordered)
  {
  }

  lemma Left(ports: Ports, root: Name, chain: seq<Name>, visiting: set<Name>, visited: set<Name>,
             ordered: seq<Name>, name: Name)
    requires Tracks(ports, root, chain + [name], visiting, visited, ordered)
    requires name in ports && ports[name].UserVisible() && name !in chain && Needed(ports, root, name)
    requires forall d :: d in ports[name].ExecDependencies() ==> d in visited
    ensures Tracks(ports, root, chain, visiting - {name}, visited + {name}, ordered + [name])
  {
    hide Needed;
    assert name in chain + [name] && name in visiting;
    assert name !in Elements(ordered);
    FinishOne(ExecGraph(ports), ordered, name);
    hide FinishOrder;
  }

  class Closure {
    const ports: Ports
    const root: Name
    var visiting: set<Name>
    var visited: set<Name>
    var ordered: seq<Name>

    constructor (ports: Ports, root: Name)
      requires root in ports
      ensures this.ports == ports && this.root == root && ordered == []
      ensures Consistent([])
    {
      this.ports, this.root := ports, root;
      visiting, visited, ordered := {}, {}, [];
    }

    ghost predicate Consistent(chain: seq<Name>)
      reads this
    {
      Tracks(ports, root, chain, visiting, visited, ordered)
    }

    method Visit(name: Name, chain: seq<Name>) returns (r: Outcome<ClosureError>)
      requires Consistent(chain)
      requires Needed(ports, root, name)
      requires IsWalk(ExecGraph(ports), [root] + chain + [name])
      modifies this
      ensures r.Pass? ==> Consistent(chain) && name in visited && old(visited) <= visited
      ensures r.Fail? ==> Blames(ports, root, r.error)
      decreases ports.Keys - visiting
    {
      ghost var g := ExecGraph(ports);
      if name in visiting {
        ghost var whole := [root] + chain + [name];
        assert whole[..|whole| - 1] == [root] + chain;
        return Fail(CircularRuntime([root] + chain + [name]));
      }
      if name in visited {
        return Pass;
      }
      if name !in ports {
        return Fail(UnknownPort(name));
      }
      if !ports[name].UserVisible() {
        return Fail(NoCommands(root, name));
      }
      Entered(ports, root, chain, visiting, visited, ordered, name);
      hide Tracks, Needed, IsWalk, Blames;
      visiting := visiting + {name};
      var nested := ports[name].ExecDependencies();
      for i := 0 to |nested|
        invariant Consistent(chain + [name])
        invariant old(visited) <= visited
        invariant forall k :: 0 <= k < i ==> nested[k] in visited
      {
        assert Edge(g, name, nested[i]);
        ExtendWalk(g, [root] + chain, name, nested[i]);
        assert [root] + (chain + [name]) == [root] + chain + [name];
        ReachableFurther(g, ports[root].ExecDependencies(), name, nested[i]);
        r := Visit(nested[i], chain + [name]);
        if r.Fail? {
          return;
        }
      }
      Left(ports, root, chain, visiting, visited, ordered, name);
      visiting := visiting - {name};
      visited := visited + {name};
      ordered := ordered + [name];
      return Pass;
    }
  }

  /** An error points at a needed name that cannot be bundled, and says why. */
  ghost predicate Blames(ports: Ports, root: Name, error: ClosureError)
    requires root in ports
  {
    match error
    case CircularRuntime(chain) =>
      && |chain| >= 2 && chain[0] == root
      && ClosesCycle(ExecGraph(ports), chain)
      && Needed(ports, root, chain[|chain| - 1])
    case UnknownPort(n) => Needed(ports, root, n) && n !in ports
    case NoCommands(from, n) => from == root && Needed(ports, root, n) && n in ports && !ports[n].UserVisible()
  }

  lemma BlamedIsNotBundleable(ports: Ports, root: Name, error: ClosureError)
    requires root in ports && Blames(ports, root, error)
    ensures exists n :: Needed(ports, root, n) && !Bundleable(ports, n)
  {
    if error.CircularRuntime? {
      ClosedChainIsCycle(ExecGraph(ports), error.chain);
    }
  }

  method RuntimeBundleDependencies(ports: Ports, root: Name) returns (r: Result<seq<Name>, ClosureError>)
    requires root in ports
    ensures r.Ok? ==> IsClosure(ports, root, r.value)
    ensures r.Ok? <==> forall n :: Needed(ports, root, n) ==> Bundleable(ports, n)
    ensures r.Err? ==> Blames(ports, root, r.error)
  {
    ghost var g := ExecGraph(ports);
    var closure := new Closure(ports, root);
    var direct := ports[root].ExecDependencies();
    for i := 0 to |direct|
      invariant closure.Consistent([])
      invariant forall k :: 0 <= k < i ==> direct[k] in closure.visited
    {
      ReachesItself(g, direct[i]);
      assert Needed(ports, root, direct[i]);
      assert Edge(g, root, direct[i]);
      assert IsWalk(g, [root] + [] + [direct[i]]);
      ghost var before := closure.ordered;
      var outcome := closure.Visit(direct[i], []);
      if outcome.Fail? {
        BlamedIsNotBundleable(ports, root, outcome.error);
        return Err(outcome.error);
      }
      forall k | 0 <= k < i
        ensures direct[k] in closure.visited
      {
        assert direct[k] in before;
      }
    }
    FinishedIsTheClosure(ports, root, closure.ordered);
    return Ok(closure.ordered);
  }

  /** A finishing order of needed names that holds every direct dependency is the whole closure. */
  lemma FinishedIsTheClosure(ports: Ports, root: Name, ordered: seq<Name>)
    requires root in ports
    requires FinishOrder(ExecGraph(ports), ordered)
    requires forall n :: n in ports[root].ExecDependencies() ==> n in ordered
    requires forall n :: n in ordered ==> Needed(ports, root, n) && n in ports && ports[n].UserVisible()
    ensures IsClosure(ports, root, ordered)
    ensures forall n :: Needed(ports, root, n) ==> Bundleable(ports, n)
  {
    var g := ExecGraph(ports);
    var direct := ports[root].ExecDependencies();
    FinishedIsClosed(g, ordered);
    ClosedSetHoldsReachable(g, Elements(ordered), direct);
    forall n | n in ordered
      ensures !OnCycle(g, n)
    {
      FinishedIsNotOnCycle(g, ordered, n);
    }
    if root in ordered {
      var d :| d in direct && Reaches(g, d, root);
      assert Edge(g, root, d);
      EdgeAndBackIsCycle(g, root, d);
    }
  }
}
