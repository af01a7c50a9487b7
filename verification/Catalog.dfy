/** Port manifests and `validate_catalog` of scripts/ports.py. */
module Catalog {
  import opened Graphs
  import opened Wrappers

  const MINIMUM_VISIBLE := 100

  datatype Alias = Alias(target: string, args: seq<string>)

  datatype Runtime = Runtime(
    commands: seq<string>,
    execDependencies: Option<seq<Name>>,
    bundleDependencies: Option<seq<Name>>,
    aliases: map<string, Alias>)

  datatype Port = Port(
    name: Name,
    version: string,
    revision: string,
    buildOnly: bool,
    depends: seq<Name>,
    buildDependencies: seq<Name>,
    runtime: Option<Runtime>)
  {
    predicate UserVisible() {
      !buildOnly
    }

    function DebVersion(): string {
      version + "-" + revision
    }

    function Commands(): seq<string> {
      if runtime.Some? then runtime.value.commands else []
    }

    function Aliases(): map<string, Alias> {
      if runtime.Some? then runtime.value.aliases else map[]
    }

    /** The newer key wins; the older one is the fallback. */
    function ExecDependencies(): (names: seq<Name>)
      ensures runtime.Some? && runtime.value.execDependencies.Some? ==> names == runtime.value.execDependencies.value
      ensures runtime.None? || (runtime.value.execDependencies.None? && runtime.value.bundleDependencies.None?) ==>
                names == []
    {
      if runtime.Some?
      then runtime.value.execDependencies.GetOr(runtime.value.bundleDependencies.GetOr([]))
      else []
    }
  }

  /** The loaded catalog. Loading keys every port by its own name. */
  type Ports = map<Name, Port>

  ghost predicate WellKeyed(ports: Ports) {
    forall n :: n in ports ==> ports[n].name == n
  }

  ghost predicate Enumerates(order: seq<Name>, ports: Ports) {
    NoRepeats(order) && Elements(order) == ports.Keys
  }

  function BuildGraph(ports: Ports): Graph {
    map n | n in ports :: ports[n].buildDependencies
  }

  function ExecGraph(ports: Ports): Graph {
    map n | n in ports :: ports[n].ExecDependencies()
  }

  function DependsGraph(ports: Ports): Graph {
    map n | n in ports :: ports[n].depends
  }

  predicate LowerAlnum(c: char) {
    'a' <= c <= 'z' || '0' <= c <= '9'
  }

  predicate PackageName(s: string) {
    && |s| > 0
    && LowerAlnum(s[0])
    && forall i :: 0 <= i < |s| ==> LowerAlnum(s[i]) || s[i] in "+.-"
  }

  predicate ValidAliases(runtime: Runtime) {
    forall c :: c in runtime.aliases ==>
      && c in runtime.commands
      && runtime.aliases[c].target in runtime.commands
      && runtime.aliases[c].target != c
      && forall a :: a in runtime.aliases[c].args ==> a != "" && '\n' !in a
  }

  /** The checks of `validate_port` that the rest of the pipeline relies on. */
  predicate ValidPort(p: Port) {
    && PackageName(p.name)
    && p.version != "" && p.revision != ""
    && (p.UserVisible() ==>
          && p.runtime.Some?
          && p.runtime.value.commands != []
          && ValidAliases(p.runtime.value))
    && (forall d :: d in p.depends ==> PackageName(d))
    && (forall d :: d in p.buildDependencies ==> PackageName(d))
  }

  /** No command belongs to two different ports. */
  ghost predicate CommandsOwnedOnce(ports: Ports) {
    forall m, n, c :: m in ports && n in ports && c in ports[m].Commands() && c in ports[n].Commands() ==> m == n
  }

  ghost predicate DependenciesKnown(ports: Ports, p: Port) {
    && (forall d :: d in p.depends ==> d in ports)
    && (forall d :: d in p.buildDependencies ==> d in ports)
    && (forall d :: d in p.ExecDependencies() ==> d in ports)
  }

  function Visible(ports: Ports): set<Name> {
    set n | n in ports && ports[n].UserVisible()
  }

  /** Everything `validate_catalog` checks before it looks for cycles. */
  ghost predicate ManifestChecks(ports: Ports) {
    && |Visible(ports)| >= MINIMUM_VISIBLE
    && (forall n :: n in ports ==> ValidPort(ports[n]))
    && CommandsOwnedOnce(ports)
    && (forall n :: n in ports ==> DependenciesKnown(ports, ports[n]))
  }

  ghost predicate Validated(ports: Ports) {
    ManifestChecks(ports) && Acyclic(BuildGraph(ports))
  }

  datatype CatalogError =
    | TooFewVisible(found: nat)
    | InvalidPort(name: Name)
    | CommandConflict(command: string, owner: Name, other: Name)
    | UnknownDependency(name: Name, dependency: Name)
    | CircularBuild(chain: seq<Name>)

  /** The error is true of the catalog. */
  ghost predicate Explains(ports: Ports, error: CatalogError) {
    match error
    case TooFewVisible(found) => found == |Visible(ports)| && found < MINIMUM_VISIBLE
    case InvalidPort(n) => n in ports && !ValidPort(ports[n])
    case CommandConflict(c, owner, other) =>
      && owner != other && owner in ports && other in ports
      && c in ports[owner].Commands() && c in ports[other].Commands()
    case UnknownDependency(n, d) =>
      && n in ports && d !in ports
      && (d in ports[n].depends || d in ports[n].buildDependencies || d in ports[n].ExecDependencies())
    case CircularBuild(chain) => ClosesCycle(BuildGraph(ports), chain)
  }

  /** The depth-first search of `validate_catalog`. `finished` lists `visited` in completion order. */
  class CycleCheck {
    const ports: Ports
    var visiting: set<Name>
    var visited: set<Name>
    ghost var finished: seq<Name>

    constructor (ports: Ports)
      ensures this.ports == ports && Consistent([]) && finished == []
    {
      this.ports := ports;
      visiting, visited, finished := {}, {}, [];
    }

    /** `visiting` is the current chain; `visited` is closed, cycle-free and apart from it. */
    ghost predicate Consistent(chain: seq<Name>)
      reads this
    {
      && visiting == Elements(chain)
      && visited == Elements(finished)
      && visiting !! visited
      && visiting <= ports.Keys
      && FinishOrder(BuildGraph(ports), finished)
    }

    method Visit(name: Name, chain: seq<Name>) returns (r: Outcome<CatalogError>)
      requires Consistent(chain)
      requires name in ports && IsWalk(BuildGraph(ports), chain + [name])
      requires forall n :: n in ports ==> DependenciesKnown(ports, ports[n])
      modifies this
      ensures r.Pass? ==> Consistent(chain) && name in visited && old(finished) <= finished
      ensures r.Fail? ==> r.error.CircularBuild? && ClosesCycle(BuildGraph(ports), r.error.chain)
      decreases ports.Keys - visiting
    {
      ghost var g := BuildGraph(ports);
      if name in visiting {
        assert (chain + [name])[..|chain + [name]| - 1] == chain;
        return Fail(CircularBuild(chain + [name]));
      }
      if name in visited {
        return Pass;
      }
      visiting := visiting + {name};
      var dependencies := ports[name].buildDependencies;
      for i := 0 to |dependencies|
        invariant Consistent(chain + [name])
        invariant old(finished) <= finished
        invariant forall k :: 0 <= k < i ==> dependencies[k] in visited
      {
        assert Edge(g, name, dependencies[i]);
        ExtendWalk(g, chain, name, dependencies[i]);
        ghost var before := finished;
        r := Visit(dependencies[i], chain + [name]);
        if r.Fail? {
          return;
        }
        forall k | 0 <= k < i
          ensures dependencies[k] in visited
        {
          assert dependencies[k] in before;
        }
      }
      FinishOne(g, finished, name);
      visiting := visiting - {name};
      visited := visited + {name};
      finished := finished + [name];
      return Pass;
    }
  }

  /** The manifest loop: every port in turn, stopping at the first complaint. */
  method CheckManifests(ports: Ports, order: seq<Name>) returns (r: Outcome<CatalogError>)
    requires WellKeyed(ports) && Enumerates(order, ports)
    ensures r.Pass? <==> ManifestChecks(ports)
    ensures r.Fail? ==> !r.error.CircularBuild? && Explains(ports, r.error)
  {
    hide *;
    if |Visible(ports)| < MINIMUM_VISIBLE {
      TooFewIsExplained(ports);
      return Fail(TooFewVisible(|Visible(ports)|));
    }
    OrderCovers(ports, order);
    OrderIsKeyed(ports, order);
    var commands: map<string, Name> := map[];
    NonePassed(ports, order[..0]);
    for i := 0 to |order|
      invariant ManifestsPassed(ports, order[..i], commands)
    {
      var step := CheckManifest(ports, order[..i], ports[order[i]], commands);
      if step.Err? {
        return Fail(step.error);
      }
      commands := step.value;
      assert order[..i + 1] == order[..i] + [order[i]];
    }
    assert order[..|order|] == order;
    AllPassed(ports, order, commands);
    return Pass;
  }

  lemma TooFewIsExplained(ports: Ports)
    requires |Visible(ports)| < MINIMUM_VISIBLE
    ensures !ManifestChecks(ports) && Explains(ports, TooFewVisible(|Visible(ports)|))
  {
  }

  lemma OrderIsKeyed(ports: Ports, order: seq<Name>)
    requires WellKeyed(ports) && forall n :: n in order <==> n in ports
    ensures forall i :: 0 <= i < |order| ==> order[i] in ports && ports[order[i]].name == order[i]
  {
  }

  lemma NonePassed(ports: Ports, seen: seq<Name>)
    requires seen == []
    ensures ManifestsPassed(ports, seen, map[])
  {
  }

  lemma AllPassed(ports: Ports, order: seq<Name>, commands: map<string, Name>)
    requires |Visible(ports)| >= MINIMUM_VISIBLE
    requires ManifestsPassed(ports, order, commands) && forall n :: n in order <==> n in ports
    ensures ManifestChecks(ports)
  {
    hide ValidPort, OwnersRecorded, CommandsOwnedOnce, DependenciesKnown, Visible;
    OwnersAreUnique(ports, order, commands);
  }

  ghost predicate ManifestsPassed(ports: Ports, seen: seq<Name>, commands: map<string, Name>) {
    && OwnersRecorded(ports, seen, commands)
    && forall n :: n in seen ==> ValidPort(ports[n]) && DependenciesKnown(ports, ports[n])
  }

  lemma OrderCovers(ports: Ports, order: seq<Name>)
    requires Enumerates(order, ports)
    ensures forall n :: n in order <==> n in ports
    ensures forall i :: 0 <= i < |order| ==> order[i] in ports && order[i] !in order[..i]
  {
    forall n
      ensures n in order <==> n in ports
    {
      assert n in Elements(order) <==> n in ports.Keys;
    }
  }

  /** One pass of the manifest loop. */
  method CheckManifest(ports: Ports, ghost seen: seq<Name>, port: Port, commands: map<string, Name>)
      returns (r: Result<map<string, Name>, CatalogError>)
    requires port.name in ports && ports[port.name] == port && port.name !in seen
    requires ManifestsPassed(ports, seen, commands)
    ensures r.Ok? ==> ManifestsPassed(ports, seen + [port.name], r.value)
    ensures r.Err? ==> !ManifestChecks(ports) && !r.error.CircularBuild? && Explains(ports, r.error)
  {
    if !ValidPort(port) {
      return Err(InvalidPort(port.name));
    }
    r := ClaimCommands(ports, seen, port, commands);
    if r.Err? {
      return;
    }
    var known := CheckDependencies(ports, port);
    if known.Fail? {
      return Err(known.error);
    }
  }

  /** `commands` maps exactly the commands of the ports seen so far, each to the one port that lists it. */
  ghost predicate OwnersRecorded(ports: Ports, seen: seq<Name>, commands: map<string, Name>) {
    && (forall n :: n in seen ==> n in ports && n != "")
    && (forall n, c :: n in seen && c in ports[n].Commands() ==> c in commands && commands[c] == n)
    && (forall c :: c in commands ==> commands[c] in seen && c in ports[commands[c]].Commands())
  }

  lemma OwnersAreUnique(ports: Ports, order: seq<Name>, commands: map<string, Name>)
    requires OwnersRecorded(ports, order, commands)
    requires forall n :: n in ports ==> n in order
    ensures CommandsOwnedOnce(ports)
  {
    forall m, n, c | m in ports && n in ports && c in ports[m].Commands() && c in ports[n].Commands()
      ensures m == n
    {
      assert c in commands && commands[c] == m by {
        assert m in order && c in ports[m].Commands();
      }
      assert commands[c] == n by {
        assert n in order && c in ports[n].Commands();
      }
    }
  }

  method ClaimCommands(ports: Ports, ghost seen: seq<Name>, port: Port, before: map<string, Name>)
      returns (r: Result<map<string, Name>, CatalogError>)
    requires port.name in ports && ports[port.name] == port && port.name != "" && port.name !in seen
    requires OwnersRecorded(ports, seen, before)
    ensures r.Ok? ==> OwnersRecorded(ports, seen + [port.name], r.value)
    ensures r.Err? ==> r.error.CommandConflict? && !CommandsOwnedOnce(ports) && Explains(ports, r.error)
  {
    var commands := before;
    for j := 0 to |port.Commands()|
      invariant forall c :: c in before ==> c in commands && commands[c] == before[c]
      invariant forall k :: 0 <= k < j ==> port.Commands()[k] in commands && commands[port.Commands()[k]] == port.name
      invariant forall c :: c in commands && c !in before ==> commands[c] == port.name && c in port.Commands()
    {
      var command := port.Commands()[j];
      if command in commands && commands[command] != "" && commands[command] != port.name {
        assert command in before && command in ports[commands[command]].Commands();
        return Err(CommandConflict(command, commands[command], port.name));
      }
      commands := commands[command := port.name];
    }
    return Ok(commands);
  }

  method CheckDependencies(ports: Ports, port: Port) returns (r: Outcome<CatalogError>)
    ensures r.Pass? <==> DependenciesKnown(ports, port)
    ensures r.Fail? ==>
              && r.error.UnknownDependency? && r.error.name == port.name && r.error.dependency !in ports
              && (|| r.error.dependency in port.depends || r.error.dependency in port.buildDependencies
                  || r.error.dependency in port.ExecDependencies())
  {
    var unknown := FirstUnknown(ports, port.depends);
    if unknown.None? {
      unknown := FirstUnknown(ports, port.buildDependencies);
    }
    if unknown.None? {
      unknown := FirstUnknown(ports, port.ExecDependencies());
    }
    r := if unknown.Some? then Fail(UnknownDependency(port.name, unknown.value)) else Pass;
  }

  method FirstUnknown(ports: Ports, names: seq<Name>) returns (r: Option<Name>)
    ensures r.None? <==> forall d :: d in names ==> d in ports
    ensures r.Some? ==> r.value in names && r.value !in ports
  {
    for i := 0 to |names|
      invariant forall k :: 0 <= k < i ==> names[k] in ports
    {
      if names[i] !in ports {
        return Some(names[i]);
      }
    }
    return None;
  }

  method ValidateCatalog(ports: Ports, order: seq<Name>) returns (r: Outcome<CatalogError>)
    requires WellKeyed(ports) && Enumerates(order, ports)
    ensures r.Pass? <==> Validated(ports)
    ensures r.Fail? && r.error.CircularBuild? ==>
              ManifestChecks(ports) && ClosesCycle(BuildGraph(ports), r.error.chain)
    ensures r.Fail? && !r.error.CircularBuild? ==> !ManifestChecks(ports)
    ensures r.Fail? ==> Explains(ports, r.error)
  {
    r := CheckManifests(ports, order);
    if r.Fail? {
      return;
    }
    ghost var g := BuildGraph(ports);
    var search := new CycleCheck(ports);
    for i := 0 to |order|
      invariant search.Consistent([])
      invariant forall k :: 0 <= k < i ==> order[k] in search.visited
    {
      assert order[i] in Elements(order);
      ghost var before := search.finished;
      r := search.Visit(order[i], []);
      if r.Fail? {
        ClosedChainIsCycle(g, r.error.chain);
        return;
      }
      forall k | 0 <= k < i
        ensures order[k] in search.visited
      {
        assert order[k] in before;
      }
    }
    FinishedCoversAll(ports, order, search.finished);
    return Pass;
  }

  lemma FinishedCoversAll(ports: Ports, order: seq<Name>, finished: seq<Name>)
    requires Enumerates(order, ports)
    requires FinishOrder(BuildGraph(ports), finished)
    requires forall k :: 0 <= k < |order| ==> order[k] in finished
    ensures Acyclic(BuildGraph(ports))
  {
    var g := BuildGraph(ports);
    forall a
      ensures !OnCycle(g, a)
    {
      if OnCycle(g, a) {
        var w :| WalkBetween(g, w, a, a) && |w| >= 2;
        assert Edge(g, w[0], w[1]);
        assert a in Elements(order);
        FinishedIsNotOnCycle(g, finished, a);
      }
    }
  }
}
