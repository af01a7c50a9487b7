/** `build_runtime_bundle` of scripts/ports.py: which commands enter a runtime
    bundle, which module runs each of them, and with which arguments. */
module Bundle {
  import opened Graphs
  import opened Wrappers
  import opened Catalog
  import opened RuntimeClosure
  import Semver

  datatype Content = Content(bytes: string)
  datatype Digest = Digest(hex: string)

  /** The files of one `usr/local/bin` directory. */
  type Binaries = map<string, Content>

  datatype BundleError =
    | Closure(error: ClosureError)
    | NotInstalled(command: string)
    | BuildFailed(dependency: Name)
    | NoRuntimeCommand(dependency: Name)
    | NotBuilt(command: string)
    | Collision(commands: set<string>)
    | BadVersion(cause: Semver.SemverError)

  /** Modules are numbered from one; module k is staged as `module-k.wasm`. */
  datatype RuntimeBundle = RuntimeBundle(
    version: string,
    entrypoint: string,
    modules: seq<Content>,
    commandModules: map<string, nat>,
    arguments: map<string, seq<string>>)

  /** The command names of the given ports, in bundle order. */
  function CommandNames(ports: Ports, names: seq<Name>): seq<string>
    requires forall n :: n in names ==> n in ports
  {
    if names == [] then [] else CommandNames(ports, names[..|names| - 1]) + ports[names[|names| - 1]].Commands()
  }

  function Target(port: Port, command: string): string {
    if command in port.Aliases() then port.Aliases()[command].target else command
  }

  /** The alias arguments the manifest attaches to a command. */
  function AliasArguments(port: Port, command: string): seq<string> {
    if command in port.Aliases() then port.Aliases()[command].args else []
  }

  function FirstNames(pairs: seq<(string, Content)>): seq<string> {
    seq(|pairs|, i requires 0 <= i < |pairs| => pairs[i].0)
  }

  function Digests(pairs: seq<(string, Content)>, hash: Content -> Digest): set<Digest> {
    set i | 0 <= i < |pairs| :: hash(pairs[i].1)
  }

  ghost predicate ListsTwice(p: Port) {
    !NoRepeats(p.Commands())
  }

  predicate OwnInstalled(port: Port, installed: Binaries) {
    forall c :: c in port.Commands() ==>
      if c in port.Aliases() then port.Aliases()[c].target in installed else c in installed
  }

  predicate StagedAll(port: Port, stage: Binaries) {
    port.Commands() != [] && forall c :: c in port.Commands() ==> c in stage
  }

  /** Every binary that the bundle needs is there. */
  predicate AllPresent(ports: Ports, root: Name, deps: seq<Name>, installed: Binaries, stages: map<Name, Binaries>)
    requires root in ports && forall d :: d in deps ==> d in ports
  {
    && OwnInstalled(ports[root], installed)
    && forall d :: d in deps ==> d in stages && StagedAll(ports[d], stages[d])
  }

  /** The binary that a bundled command stands for: for the root's commands the installed file of that name, or
      of the alias target's name; for a dependency's commands the file in its stage. */
  ghost predicate IsOwnBinary(ports: Ports, root: Name, deps: seq<Name>, installed: Binaries,
                              stages: map<Name, Binaries>, c: string, binary: Content)
    requires root in ports && forall d :: d in deps ==> d in ports
  {
    || (c in ports[root].Commands() && c !in ports[root].Aliases() && c in installed && installed[c] == binary)
    || (c in ports[root].Commands() && c in ports[root].Aliases()
        && ports[root].Aliases()[c].target in installed && installed[ports[root].Aliases()[c].target] == binary)
    || (exists d :: d in deps && c in ports[d].Commands() && d in stages && c in stages[d] && stages[d][c] == binary)
  }

  /** Each command of the root with the installed binary of its alias target. */
  function RootPairs(port: Port, installed: Binaries): seq<(string, Content)>
    requires OwnInstalled(port, installed)
  {
    seq(|port.Commands()|, i requires 0 <= i < |port.Commands()| =>
      (port.Commands()[i], installed[Target(port, port.Commands()[i])]))
  }

  /** Each command of a dependency with its staged binary. */
  function StagePairs(port: Port, stage: Binaries): seq<(string, Content)>
    requires StagedAll(port, stage)
  {
    seq(|port.Commands()|, i requires 0 <= i < |port.Commands()| => (port.Commands()[i], stage[port.Commands()[i]]))
  }

  /** Every bundled command with its own binary: the root's first, then each dependency's in order. */
  function OwnBinaries(ports: Ports, root: Name, deps: seq<Name>, installed: Binaries, stages: map<Name, Binaries>)
    : seq<(string, Content)>
    requires root in ports && forall d :: d in deps ==> d in ports
    requires AllPresent(ports, root, deps, installed, stages)
  {
    if deps == [] then RootPairs(ports[root], installed)
    else
      var d := deps[|deps| - 1];
      OwnBinaries(ports, root, deps[..|deps| - 1], installed, stages) + StagePairs(ports[d], stages[d])
  }

  /** The pairs are exactly the commands with their own binaries. */
  ghost predicate PairsOwn(ports: Ports, root: Name, deps: seq<Name>, installed: Binaries, stages: map<Name, Binaries>,
                           pairs: seq<(string, Content)>)
    requires root in ports && forall d :: d in deps ==> d in ports
  {
    forall c, binary :: (c, binary) in pairs <==> IsOwnBinary(ports, root, deps, installed, stages, c, binary)
  }

  lemma {:induction false} OwnBinariesAreOwn(ports: Ports, root: Name, deps: seq<Name>, installed: Binaries,
                                             stages: map<Name, Binaries>)
    requires root in ports && forall d :: d in deps ==> d in ports
    requires AllPresent(ports, root, deps, installed, stages)
    ensures PairsOwn(ports, root, deps, installed, stages, OwnBinaries(ports, root, deps, installed, stages))
  {
    var pairs := OwnBinaries(ports, root, deps, installed, stages);
    if deps == [] {
      forall c, binary
        ensures (c, binary) in pairs <==> IsOwnBinary(ports, root, deps, installed, stages, c, binary)
      {
        RootPairsAreOwn(ports[root], installed, c, binary);
      }
    } else {
      var k := |deps| - 1;
      var d := deps[k];
      OwnBinariesAreOwn(ports, root, deps[..k], installed, stages);
      assert forall n :: n in deps <==> n in deps[..k] || n == d;
      hide OwnBinaries, AllPresent;
      var staged := StagePairs(ports[d], stages[d]);
      forall c, binary
        ensures (c, binary) in pairs <==> IsOwnBinary(ports, root, deps, installed, stages, c, binary)
      {
        StagePairsAreOwn(ports[d], stages[d], c, binary);
        assert (c, binary) in OwnBinaries(ports, root, deps[..k], installed, stages)
               <==> IsOwnBinary(ports, root, deps[..k], installed, stages, c, binary);
      }
    }
  }

  lemma RootPairsAreOwn(port: Port, installed: Binaries, c: string, binary: Content)
    requires OwnInstalled(port, installed)
    ensures (c, binary) in RootPairs(port, installed) <==>
              c in port.Commands()
              && binary == if c in port.Aliases() then installed[port.Aliases()[c].target] else installed[c]
  {
    var pairs := RootPairs(port, installed);
    if c in port.Commands() {
      var i :| 0 <= i < |port.Commands()| && port.Commands()[i] == c;
      assert pairs[i].0 == c;
    }
    if (c, binary) in pairs {
      var i :| 0 <= i < |pairs| && pairs[i] == (c, binary);
      assert port.Commands()[i] == c;
    }
  }

  lemma StagePairsAreOwn(port: Port, stage: Binaries, c: string, binary: Content)
    requires StagedAll(port, stage)
    ensures (c, binary) in StagePairs(port, stage) <==> c in port.Commands() && stage[c] == binary
  {
    var pairs := StagePairs(port, stage);
    if c in port.Commands() {
      var i :| 0 <= i < |port.Commands()| && port.Commands()[i] == c;
      assert pairs[i].0 == c;
    }
    if (c, binary) in pairs {
      var i :| 0 <= i < |pairs| && pairs[i] == (c, binary);
      assert port.Commands()[i] == c;
    }
  }

  // ---- Command names across ports ----

  lemma {:induction false} NamedByAPort(ports: Ports, names: seq<Name>, c: string)
    requires forall n :: n in names ==> n in ports
    ensures c in CommandNames(ports, names) <==> exists n :: n in names && c in ports[n].Commands()
  {
    if names != [] {
      var k := |names| - 1;
      NamedByAPort(ports, names[..k], c);
      assert names == names[..k] + [names[k]];
      assert names[k] in names;
      if c in CommandNames(ports, names) {
        if c in ports[names[k]].Commands() {
        } else {
          var n :| n in names[..k] && c in ports[n].Commands();
          assert n in names;
        }
      }
    }
  }

  /** Distinct ports of a validated catalog repeat a command between them only if one of them
      lists it twice by itself. */
  lemma {:induction false} RepeatsComeFromOnePort(ports: Ports, names: seq<Name>)
    requires forall n :: n in names ==> n in ports
    requires CommandsOwnedOnce(ports) && NoRepeats(names)
    ensures NoRepeats(CommandNames(ports, names)) <==> forall n :: n in names ==> !ListsTwice(ports[n])
  {
    if names != [] {
      var k := |names| - 1;
      var last := names[k];
      RepeatsComeFromOnePort(ports, names[..k]);
      assert names == names[..k] + [last];
      assert forall n :: n in names <==> n in names[..k] || n == last;
      assert last !in names[..k];
      forall c | c in CommandNames(ports, names[..k]) && c in ports[last].Commands()
        ensures false
      {
        NamedByAPort(ports, names[..k], c);
      }
      NoRepeatsOfConcat(CommandNames(ports, names[..k]), ports[last].Commands());
    }
  }

  lemma NoRepeatsOfConcat(a: seq<string>, b: seq<string>)
    requires forall c :: c in a && c in b ==> false
    ensures NoRepeats(a + b) <==> NoRepeats(a) && NoRepeats(b)
  {
    var s := a + b;
    if NoRepeats(s) {
      forall i, j | 0 <= i < j < |a|
        ensures a[i] != a[j]
      {
        assert s[i] == a[i] && s[j] == a[j];
      }
      forall i, j | 0 <= i < j < |b|
        ensures b[i] != b[j]
      {
        assert s[|a| + i] == b[i] && s[|a| + j] == b[j];
      }
    }
    if NoRepeats(a) && NoRepeats(b) {
      forall i, j | 0 <= i < j < |s|
        ensures s[i] != s[j]
      {
        if i < |a| <= j {
          assert s[i] in a && s[j] == b[j - |a|];
        }
      }
    }
  }

  // ---- Gathering the command binaries ----

  method GatherOwn(port: Port, installed: Binaries) returns (r: Result<seq<(string, Content)>, BundleError>)
    ensures r.Ok? <==> OwnInstalled(port, installed)
    ensures r.Ok? ==> r.value == RootPairs(port, installed)
    ensures r.Err? ==>
              && r.error.NotInstalled? && r.error.command in port.Commands()
              && var c := r.error.command;
                 if c in port.Aliases() then port.Aliases()[c].target !in installed else c !in installed
  {
    var commands := port.Commands();
    var pairs: seq<(string, Content)> := [];
    for i := 0 to |commands|
      invariant |pairs| == i
      invariant forall k :: 0 <= k < i ==>
                  Target(port, commands[k]) in installed && pairs[k] == (commands[k], installed[Target(port, commands[k])])
    {
      var target := Target(port, commands[i]);
      if target !in installed {
        return Err(NotInstalled(commands[i]));
      }
      pairs := pairs + [(commands[i], installed[target])];
    }
    return Ok(pairs);
  }

  method GatherStaged(port: Port, stage: Binaries) returns (r: Result<seq<(string, Content)>, BundleError>)
    ensures r.Ok? <==> StagedAll(port, stage)
    ensures r.Ok? ==> r.value == StagePairs(port, stage)
    ensures r.Err? ==> if port.Commands() == [] then r.error == NoRuntimeCommand(port.name)
                       else r.error.NotBuilt? && r.error.command in port.Commands() && r.error.command !in stage
  {
    var commands := port.Commands();
    if commands == [] {
      return Err(NoRuntimeCommand(port.name));
    }
    var pairs: seq<(string, Content)> := [];
    for i := 0 to |commands|
      invariant |pairs| == i
      invariant forall k :: 0 <= k < i ==> commands[k] in stage && pairs[k] == (commands[k], stage[commands[k]])
    {
      if commands[i] !in stage {
        return Err(NotBuilt(commands[i]));
      }
      pairs := pairs + [(commands[i], stage[commands[i]])];
    }
    return Ok(pairs);
  }

  /** The error names what is missing. */
  ghost predicate Missing(ports: Ports, root: Name, deps: seq<Name>, installed: Binaries, stages: map<Name, Binaries>,
                          error: BundleError)
    requires root in ports && forall d :: d in deps ==> d in ports
  {
    match error
    case NotInstalled(c) =>
      && c in ports[root].Commands()
      && if c in ports[root].Aliases() then ports[root].Aliases()[c].target !in installed else c !in installed
    case BuildFailed(d) => d in deps && d !in stages
    case NoRuntimeCommand(n) => exists d :: d in deps && ports[d].name == n && ports[d].Commands() == []
    case NotBuilt(c) => exists d :: d in deps && d in stages && c in ports[d].Commands() && c !in stages[d]
    case _ => true
  }

  method GatherCommands(ports: Ports, root: Name, deps: seq<Name>, installed: Binaries, stages: map<Name, Binaries>)
      returns (r: Result<seq<(string, Content)>, BundleError>)
    requires root in ports && forall d :: d in deps ==> d in ports
    ensures r.Ok? <==> AllPresent(ports, root, deps, installed, stages)
    ensures r.Ok? ==> r.value == OwnBinaries(ports, root, deps, installed, stages)
    ensures r.Ok? ==> PairsOwn(ports, root, deps, installed, stages, r.value)
    ensures r.Err? ==> !r.error.Collision? && !r.error.Closure? && !r.error.BadVersion?
    ensures r.Err? ==> Missing(ports, root, deps, installed, stages, r.error)
  {
    r := GatherOwn(ports[root], installed);
    if r.Err? {
      return;
    }
    var pairs := r.value;
    for i := 0 to |deps|
      invariant AllPresent(ports, root, deps[..i], installed, stages)
      invariant pairs == OwnBinaries(ports, root, deps[..i], installed, stages)
    {
      if deps[i] !in stages {
        return Err(BuildFailed(deps[i]));
      }
      r := GatherStaged(ports[deps[i]], stages[deps[i]]);
      if r.Err? {
        return;
      }
      assert deps[..i + 1] == deps[..i] + [deps[i]] && deps[..i + 1][..i] == deps[..i];
      pairs := pairs + r.value;
    }
    assert deps[..|deps|] == deps;
    OwnBinariesAreOwn(ports, root, deps, installed, stages);
    return Ok(pairs);
  }

  lemma {:induction false} OwnBinariesNames(ports: Ports, root: Name, deps: seq<Name>, installed: Binaries,
                                            stages: map<Name, Binaries>)
    requires root in ports && forall d :: d in deps ==> d in ports
    requires AllPresent(ports, root, deps, installed, stages)
    ensures FirstNames(OwnBinaries(ports, root, deps, installed, stages)) == CommandNames(ports, [root] + deps)
  {
    var names := [root] + deps;
    if deps == [] {
      assert names[..0] == [];
      assert CommandNames(ports, names) == CommandNames(ports, []) + ports[root].Commands();
    } else {
      var k := |deps| - 1;
      OwnBinariesNames(ports, root, deps[..k], installed, stages);
      assert names[..|names| - 1] == [root] + deps[..k];
      var staged := StagePairs(ports[deps[k]], stages[deps[k]]);
      assert FirstNames(staged) == ports[deps[k]].Commands();
      FirstNamesOfConcat(OwnBinaries(ports, root, deps[..k], installed, stages), staged);
    }
  }

  lemma FirstNamesOfConcat(a: seq<(string, Content)>, b: seq<(string, Content)>)
    ensures FirstNames(a + b) == FirstNames(a) + FirstNames(b)
  {
  }

  // ---- Assigning modules ----

  /** The dictionaries of the module loop. Modules are numbered from one. */
  datatype Assignment = Assignment(
    modulesByDigest: map<Digest, nat>,
    modules: seq<Content>,
    commandModules: map<string, nat>)
  {
    function With(command: string, binary: Content, digest: Digest): Assignment {
      var indexed :=
        if digest in modulesByDigest then this
        else Assignment(modulesByDigest[digest := |modulesByDigest| + 1], modules + [binary], commandModules);
      indexed.(commandModules := commandModules[command := indexed.modulesByDigest[digest]])
    }

    /** Each digest numbers the one module that carries it. */
    ghost predicate Indexed(hash: Content -> Digest) {
      && |modules| == |modulesByDigest|
      && forall d :: d in modulesByDigest ==>
           1 <= modulesByDigest[d] <= |modules| && hash(modules[modulesByDigest[d] - 1]) == d
    }

    /** The command runs a module with the digest of the given binary. */
    ghost predicate Runs(command: string, binary: Content, hash: Content -> Digest) {
      && command in commandModules
      && hash(binary) in modulesByDigest
      && commandModules[command] == modulesByDigest[hash(binary)]
    }
  }

  /** What the loop has built after all of the given pairs. */
  function Assigned(pairs: seq<(string, Content)>, hash: Content -> Digest): Assignment {
    if pairs == [] then Assignment(map[], [], map[])
    else
      var (command, binary) := pairs[|pairs| - 1];
      Assigned(pairs[..|pairs| - 1], hash).With(command, binary, hash(binary))
  }

  method AssignModules(pairs: seq<(string, Content)>, hash: Content -> Digest) returns (r: Assignment)
    ensures r == Assigned(pairs, hash)
  {
    var modulesByDigest: map<Digest, nat> := map[];
    var modules: seq<Content> := [];
    var commandModules: map<string, nat> := map[];
    for i := 0 to |pairs|
      invariant Assignment(modulesByDigest, modules, commandModules) == Assigned(pairs[..i], hash)
    {
      var (command, binary) := pairs[i];
      var digest := hash(binary);
      assert pairs[..i + 1][..i] == pairs[..i];
      if digest !in modulesByDigest {
        modulesByDigest := modulesByDigest[digest := |modulesByDigest| + 1];
        modules := modules + [binary];
      }
      commandModules := commandModules[command := modulesByDigest[digest]];
    }
    assert pairs[..|pairs|] == pairs;
    r := Assignment(modulesByDigest, modules, commandModules);
  }

  lemma {:induction false} ModulesIndexed(pairs: seq<(string, Content)>, hash: Content -> Digest)
    ensures Assigned(pairs, hash).Indexed(hash)
  {
    if pairs != [] {
      var k := |pairs| - 1;
      ModulesIndexed(pairs[..k], hash);
      WithKeepsIndexed(Assigned(pairs[..k], hash), pairs[k].0, pairs[k].1, hash);
    }
  }

  lemma WithKeepsIndexed(a: Assignment, command: string, binary: Content, hash: Content -> Digest)
    requires a.Indexed(hash)
    ensures a.With(command, binary, hash(binary)).Indexed(hash)
  {
    var digest := hash(binary);
    var after := a.With(command, binary, digest);
    forall d | d in after.modulesByDigest
      ensures 1 <= after.modulesByDigest[d] <= |after.modules|
      ensures hash(after.modules[after.modulesByDigest[d] - 1]) == d
    {
      assert d in a.modulesByDigest || d == digest;
    }
  }

  lemma {:induction false} EveryDigestIndexed(pairs: seq<(string, Content)>, hash: Content -> Digest)
    ensures Assigned(pairs, hash).modulesByDigest.Keys == Digests(pairs, hash)
  {
    if pairs != [] {
      EveryDigestIndexed(pairs[..|pairs| - 1], hash);
      OneMoreDigest(pairs, hash);
    }
  }

  /** No two modules carry the same digest, and every module carries that of a given binary. */
  ghost predicate OneModuleEach(modules: seq<Content>, digests: set<Digest>, hash: Content -> Digest) {
    && (forall i :: 0 <= i < |modules| ==> hash(modules[i]) in digests)
    && (forall i, j :: 0 <= i < j < |modules| ==> hash(modules[i]) != hash(modules[j]))
  }

  lemma {:induction false} ModulesDiffer(pairs: seq<(string, Content)>, hash: Content -> Digest)
    ensures OneModuleEach(Assigned(pairs, hash).modules, Digests(pairs, hash), hash)
  {
    if pairs != [] {
      var k := |pairs| - 1;
      ModulesDiffer(pairs[..k], hash);
      EveryDigestIndexed(pairs[..k], hash);
      OneMoreDigest(pairs, hash);
      hide Digests;
      WithKeepsOneEach(Assigned(pairs[..k], hash), pairs[k].0, pairs[k].1, Digests(pairs[..k], hash), hash);
    }
  }

  lemma WithKeepsOneEach(a: Assignment, command: string, binary: Content, digests: set<Digest>, hash: Content -> Digest)
    requires OneModuleEach(a.modules, digests, hash) && a.modulesByDigest.Keys == digests
    ensures OneModuleEach(a.With(command, binary, hash(binary)).modules, digests + {hash(binary)}, hash)
  {
    assert hash(binary) in a.modulesByDigest <==> hash(binary) in digests;
  }

  lemma OneModulePerDigest(pairs: seq<(string, Content)>, hash: Content -> Digest)
    ensures |Assigned(pairs, hash).modules| == |Digests(pairs, hash)|
  {
    var a := Assigned(pairs, hash);
    assert |a.modules| == |a.modulesByDigest| by {
      ModulesIndexed(pairs, hash);
    }
    EveryDigestIndexed(pairs, hash);
    assert |a.modulesByDigest| == |a.modulesByDigest.Keys|;
  }

  lemma OneMoreDigest(pairs: seq<(string, Content)>, hash: Content -> Digest)
    requires pairs != []
    ensures Digests(pairs, hash) == Digests(pairs[..|pairs| - 1], hash) + {hash(pairs[|pairs| - 1].1)}
  {
    var before := pairs[..|pairs| - 1];
    forall d | d in Digests(before, hash)
      ensures d in Digests(pairs, hash)
    {
      var k :| 0 <= k < |before| && hash(before[k].1) == d;
      assert hash(pairs[k].1) == d;
    }
    assert hash(pairs[|pairs| - 1].1) in Digests(pairs, hash);
  }

  lemma {:induction false} CommandsAssigned(pairs: seq<(string, Content)>, hash: Content -> Digest)
    ensures Assigned(pairs, hash).commandModules.Keys == Elements(FirstNames(pairs))
  {
    if pairs != [] {
      var k := |pairs| - 1;
      CommandsAssigned(pairs[..k], hash);
      assert FirstNames(pairs) == FirstNames(pairs[..k]) + [pairs[k].0];
    }
  }

  /** With distinct commands, no later pair takes a command's module away. */
  lemma {:induction false} RunsOwnModule(pairs: seq<(string, Content)>, i: nat, hash: Content -> Digest)
    requires i < |pairs| && NoRepeats(FirstNames(pairs))
    ensures Assigned(pairs, hash).Runs(pairs[i].0, pairs[i].1, hash)
  {
    var k := |pairs| - 1;
    if i < k {
      assert FirstNames(pairs[..k]) == FirstNames(pairs)[..k];
      RunsOwnModule(pairs[..k], i, hash);
      assert FirstNames(pairs)[i] != FirstNames(pairs)[k];
    }
  }

  // ---- The whole step ----

  /** The manifest's arguments: those of the root's aliases, where there are any. */
  function BundleArguments(port: Port, commands: set<string>): map<string, seq<string>> {
    map c | c in commands && AliasArguments(port, c) != [] :: AliasArguments(port, c)
  }

  function BundleOf(decimals: Semver.Decimals, port: Port, pairs: seq<(string, Content)>, hash: Content -> Digest)
    : RuntimeBundle
    requires port.Commands() != [] && Semver.RuntimeSemver(decimals, port.version).Ok?
  {
    var a := Assigned(pairs, hash);
    RuntimeBundle(Semver.RuntimeSemver(decimals, port.version).value, port.Commands()[0], a.modules, a.commandModules,
                  BundleArguments(port, a.commandModules.Keys))
  }

  /** The module that the command runs exists and carries the given digest. */
  ghost predicate RunsCarrier(bundle: RuntimeBundle, command: string, digest: Digest, hash: Content -> Digest) {
    && command in bundle.commandModules
    && 1 <= bundle.commandModules[command] <= |bundle.modules|
    && hash(bundle.modules[bundle.commandModules[command] - 1]) == digest
  }

  /** What a bundle promises for the given commands with their own binaries: exactly these commands,
      each running one module that carries its own binary's digest, and one module per digest. */
  ghost predicate Carries(bundle: RuntimeBundle, pairs: seq<(string, Content)>, hash: Content -> Digest) {
    && bundle.commandModules.Keys == Elements(FirstNames(pairs))
    && (forall i :: 0 <= i < |pairs| ==> RunsCarrier(bundle, pairs[i].0, hash(pairs[i].1), hash))
    && |bundle.modules| == |Digests(pairs, hash)|
    && OneModuleEach(bundle.modules, Digests(pairs, hash), hash)
  }

  /** The module has the digest of some command's own binary. */
  ghost predicate CarriesOwn(ports: Ports, root: Name, deps: seq<Name>, installed: Binaries,
                             stages: map<Name, Binaries>, hash: Content -> Digest, m: Content)
    requires root in ports && forall d :: d in deps ==> d in ports
  {
    exists c, binary :: IsOwnBinary(ports, root, deps, installed, stages, c, binary) && hash(binary) == hash(m)
  }

  /** The same in terms of commands and files: every command runs its own binary, and each distinct binary
      has one module. */
  ghost predicate RunsOwnBinaries(ports: Ports, root: Name, deps: seq<Name>, installed: Binaries,
                                  stages: map<Name, Binaries>, hash: Content -> Digest, bundle: RuntimeBundle)
    requires root in ports && forall d :: d in deps ==> d in ports
  {
    && (forall c :: c in bundle.commandModules <==>
          c in ports[root].Commands() || exists d :: d in deps && c in ports[d].Commands())
    && (forall c, binary :: IsOwnBinary(ports, root, deps, installed, stages, c, binary) ==>
          RunsCarrier(bundle, c, hash(binary), hash))
    && (forall m :: m in bundle.modules ==> CarriesOwn(ports, root, deps, installed, stages, hash, m))
    && (forall i, j :: 0 <= i < j < |bundle.modules| ==> hash(bundle.modules[i]) != hash(bundle.modules[j]))
  }

  /** Arguments go exactly to the port's own aliases that have some. */
  ghost predicate ArgumentsFollowAliases(bundle: RuntimeBundle, port: Port) {
    forall c ::
      && (c in bundle.arguments <==>
           c in bundle.commandModules && c in port.Commands() && c in port.Aliases() && port.Aliases()[c].args != [])
      && (c in bundle.arguments ==> bundle.arguments[c] == port.Aliases()[c].args)
  }

  /** What a successfully built bundle promises, for the closure `deps` of the root. */
  ghost predicate Bundled(decimals: Semver.Decimals, ports: Ports, root: Name, deps: seq<Name>, installed: Binaries,
                          stages: map<Name, Binaries>, hash: Content -> Digest, bundle: RuntimeBundle)
    requires root in ports && forall d :: d in deps ==> d in ports
  {
    && AllPresent(ports, root, deps, installed, stages)
    && (forall n :: n in [root] + deps ==> !ListsTwice(ports[n]))
    && Semver.RuntimeSemver(decimals, ports[root].version) == Ok(bundle.version)
    && RunsOwnBinaries(ports, root, deps, installed, stages, hash, bundle)
    && ports[root].Commands() != [] && bundle.entrypoint == ports[root].Commands()[0]
    && ArgumentsFollowAliases(bundle, ports[root])
  }

  /** The part of `build_runtime_bundle` after the closure: gather, reject collisions, assign modules. */
  method BundleCommands(decimals: Semver.Decimals, ports: Ports, root: Name, deps: seq<Name>, installed: Binaries,
                        stages: map<Name, Binaries>, hash: Content -> Digest)
      returns (r: Result<RuntimeBundle, BundleError>)
    requires CommandsOwnedOnce(ports)
    requires root in ports && ValidPort(ports[root]) && ports[root].UserVisible()
    requires NoRepeats([root] + deps) && forall d :: d in deps ==> d in ports
    ensures r.Ok? <==>
              && AllPresent(ports, root, deps, installed, stages)
              && (forall n :: n in [root] + deps ==> !ListsTwice(ports[n]))
              && Semver.RuntimeSemver(decimals, ports[root].version).Ok?
    ensures r.Ok? ==> Bundled(decimals, ports, root, deps, installed, stages, hash, r.value)
    ensures r.Err? ==> !r.error.Closure?
    ensures r.Err? && r.error.Collision? ==> exists n :: n in [root] + deps && ListsTwice(ports[n])
  {
    var gathered := GatherCommands(ports, root, deps, installed, stages);
    if gathered.Err? {
      return Err(gathered.error);
    }
    var pairs := gathered.value;
    CollisionsComeFromOnePort(ports, root, deps, installed, stages);
    var names := FirstNames(pairs);
    if !NoRepeats(names) {
      return Err(Collision(set i, j | 0 <= i < j < |names| && names[i] == names[j] :: names[i]));
    }
    var version := Semver.RuntimeSemver(decimals, ports[root].version);
    if version.Err? {
      return Err(BadVersion(version.error));
    }
    var a := AssignModules(pairs, hash);
    BundleCarries(decimals, ports[root], pairs, hash);
    CarriersAreOwn(ports, root, deps, installed, stages, hash, BundleOf(decimals, ports[root], pairs, hash));
    return Ok(RuntimeBundle(version.value, ports[root].Commands()[0], a.modules, a.commandModules,
                            BundleArguments(ports[root], a.commandModules.Keys)));
  }

  method BuildRuntimeBundle(decimals: Semver.Decimals, ports: Ports, root: Name, installed: Binaries,
                            stages: map<Name, Binaries>, hash: Content -> Digest)
      returns (r: Result<Option<RuntimeBundle>, BundleError>, deps: seq<Name>)
    requires Validated(ports) && root in ports && ports[root].UserVisible()
    ensures r.Ok? || !r.error.Closure? <==> forall n :: Needed(ports, root, n) ==> Bundleable(ports, n)
    ensures r.Ok? || !r.error.Closure? ==> IsClosure(ports, root, deps) && forall d :: d in deps ==> d in ports
    ensures r.Err? && !r.error.Closure? ==>
              !(|ports[root].Commands()| == 1 && deps == [])
              && !(&& AllPresent(ports, root, deps, installed, stages)
                   && (forall n :: n in [root] + deps ==> !ListsTwice(ports[n]))
                   && Semver.RuntimeSemver(decimals, ports[root].version).Ok?)
    ensures r.Err? && r.error.Collision? ==> exists n :: n in [root] + deps && n in ports && ListsTwice(ports[n])
    ensures r.Ok? ==> (r.value.None? <==> |ports[root].Commands()| == 1 && deps == [])
    ensures r.Ok? && r.value.Some? ==> Bundled(decimals, ports, root, deps, installed, stages, hash, r.value.value)
  {
    deps := [];
    var closure := RuntimeBundleDependencies(ports, root);
    if closure.Err? {
      return Err(Closure(closure.error)), deps;
    }
    deps := closure.value;
    ClosureIsKnown(ports, root, deps);
    if |ports[root].Commands()| == 1 && deps == [] {
      return Ok(None), deps;
    }
    assert ValidPort(ports[root]);
    var bundled := BundleCommands(decimals, ports, root, deps, installed, stages, hash);
    if bundled.Err? {
      return Err(bundled.error), deps;
    }
    return Ok(Some(bundled.value)), deps;
  }

  lemma ClosureIsKnown(ports: Ports, root: Name, deps: seq<Name>)
    requires root in ports && IsClosure(ports, root, deps)
    requires forall n :: Needed(ports, root, n) ==> Bundleable(ports, n)
    ensures forall d :: d in deps ==> d in ports
    ensures NoRepeats([root] + deps)
  {
  }

  /** The collision error is about a single port's own list, never about two ports. */
  lemma CollisionsComeFromOnePort(ports: Ports, root: Name, deps: seq<Name>, installed: Binaries,
                                  stages: map<Name, Binaries>)
    requires CommandsOwnedOnce(ports)
    requires root in ports && forall d :: d in deps ==> d in ports
    requires NoRepeats([root] + deps)
    requires AllPresent(ports, root, deps, installed, stages)
    ensures NoRepeats(FirstNames(OwnBinaries(ports, root, deps, installed, stages)))
            <==> forall n :: n in [root] + deps ==> !ListsTwice(ports[n])
  {
    OwnBinariesNames(ports, root, deps, installed, stages);
    RepeatsComeFromOnePort(ports, [root] + deps);
  }

  /** Carrying the gathered pairs is running every command's own binary. */
  lemma CarriersAreOwn(ports: Ports, root: Name, deps: seq<Name>, installed: Binaries, stages: map<Name, Binaries>,
                       hash: Content -> Digest, bundle: RuntimeBundle)
    requires root in ports && forall d :: d in deps ==> d in ports
    requires AllPresent(ports, root, deps, installed, stages)
    requires Carries(bundle, OwnBinaries(ports, root, deps, installed, stages), hash)
    ensures RunsOwnBinaries(ports, root, deps, installed, stages, hash, bundle)
  {
    var pairs := OwnBinaries(ports, root, deps, installed, stages);
    OwnBinariesAreOwn(ports, root, deps, installed, stages);
    OwnBinariesNames(ports, root, deps, installed, stages);
    hide OwnBinaries, AllPresent, IsOwnBinary, CommandNames, RunsCarrier, PairsOwn, Digests, FirstNames, CarriesOwn;
    CommandsAreNamed(ports, root, deps, FirstNames(pairs), bundle);
    CommandsRunOwn(ports, root, deps, installed, stages, pairs, hash, bundle);
    ModulesAreOwn(ports, root, deps, installed, stages, pairs, hash, bundle);
  }

  lemma CommandsAreNamed(ports: Ports, root: Name, deps: seq<Name>, names: seq<string>, bundle: RuntimeBundle)
    requires root in ports && forall d :: d in deps ==> d in ports
    requires names == CommandNames(ports, [root] + deps) && bundle.commandModules.Keys == Elements(names)
    ensures forall c :: c in bundle.commandModules <==>
              c in ports[root].Commands() || exists d :: d in deps && c in ports[d].Commands()
  {
    hide CommandNames;
    forall c
      ensures c in bundle.commandModules <==>
                c in ports[root].Commands() || exists d :: d in deps && c in ports[d].Commands()
    {
      NamedByRootOrDependency(ports, root, deps, c);
      assert c in bundle.commandModules <==> c in Elements(names);
    }
  }

  lemma CommandsRunOwn(ports: Ports, root: Name, deps: seq<Name>, installed: Binaries, stages: map<Name, Binaries>,
                       pairs: seq<(string, Content)>, hash: Content -> Digest, bundle: RuntimeBundle)
    requires root in ports && forall d :: d in deps ==> d in ports
    requires PairsOwn(ports, root, deps, installed, stages, pairs) && Carries(bundle, pairs, hash)
    ensures forall c, binary :: IsOwnBinary(ports, root, deps, installed, stages, c, binary) ==>
              RunsCarrier(bundle, c, hash(binary), hash)
  {
    hide IsOwnBinary, RunsCarrier, PairsOwn, OneModuleEach, Digests, FirstNames;
    forall c, binary | IsOwnBinary(ports, root, deps, installed, stages, c, binary)
      ensures RunsCarrier(bundle, c, hash(binary), hash)
    {
      OwnIsPaired(ports, root, deps, installed, stages, pairs, c, binary);
    }
  }

  lemma ModulesAreOwn(ports: Ports, root: Name, deps: seq<Name>, installed: Binaries, stages: map<Name, Binaries>,
                      pairs: seq<(string, Content)>, hash: Content -> Digest, bundle: RuntimeBundle)
    requires root in ports && forall d :: d in deps ==> d in ports
    requires PairsOwn(ports, root, deps, installed, stages, pairs) && Carries(bundle, pairs, hash)
    ensures forall m :: m in bundle.modules ==> CarriesOwn(ports, root, deps, installed, stages, hash, m)
  {
    hide IsOwnBinary, RunsCarrier, PairsOwn, Digests, FirstNames;
    forall m | m in bundle.modules
      ensures CarriesOwn(ports, root, deps, installed, stages, hash, m)
    {
      var i :| 0 <= i < |bundle.modules| && bundle.modules[i] == m;
      assert hash(bundle.modules[i]) in Digests(pairs, hash);
      var c, binary := DigestIsOwn(ports, root, deps, installed, stages, pairs, hash, hash(m));
    }
  }

  lemma NamedByRootOrDependency(ports: Ports, root: Name, deps: seq<Name>, c: string)
    requires root in ports && forall d :: d in deps ==> d in ports
    ensures c in CommandNames(ports, [root] + deps)
            <==> c in ports[root].Commands() || exists d :: d in deps && c in ports[d].Commands()
  {
    hide CommandNames;
    assert forall n :: n in [root] + deps <==> n == root || n in deps;
    NamedByAPort(ports, [root] + deps, c);
  }

  lemma OwnIsPaired(ports: Ports, root: Name, deps: seq<Name>, installed: Binaries, stages: map<Name, Binaries>,
                    pairs: seq<(string, Content)>, c: string, binary: Content)
    requires root in ports && forall d :: d in deps ==> d in ports
    requires PairsOwn(ports, root, deps, installed, stages, pairs)
    requires IsOwnBinary(ports, root, deps, installed, stages, c, binary)
    ensures exists i :: 0 <= i < |pairs| && pairs[i].0 == c && pairs[i].1 == binary
  {
    hide IsOwnBinary;
    assert (c, binary) in pairs;
    var i :| 0 <= i < |pairs| && pairs[i] == (c, binary);
    assert pairs[i].0 == c && pairs[i].1 == binary;
  }

  lemma DigestIsOwn(ports: Ports, root: Name, deps: seq<Name>, installed: Binaries, stages: map<Name, Binaries>,
                    pairs: seq<(string, Content)>, hash: Content -> Digest, digest: Digest)
      returns (c: string, binary: Content)
    requires root in ports && forall d :: d in deps ==> d in ports
    requires PairsOwn(ports, root, deps, installed, stages, pairs) && digest in Digests(pairs, hash)
    ensures IsOwnBinary(ports, root, deps, installed, stages, c, binary) && hash(binary) == digest
  {
    hide IsOwnBinary;
    var k :| 0 <= k < |pairs| && hash(pairs[k].1) == digest;
    c, binary := pairs[k].0, pairs[k].1;
    assert (c, binary) == pairs[k];
    assert (c, binary) in pairs;
  }

  lemma BundleCarries(decimals: Semver.Decimals, port: Port, pairs: seq<(string, Content)>, hash: Content -> Digest)
    requires ValidPort(port) && port.UserVisible() && NoRepeats(FirstNames(pairs))
    requires Semver.RuntimeSemver(decimals, port.version).Ok?
    ensures Carries(BundleOf(decimals, port, pairs, hash), pairs, hash)
    ensures ArgumentsFollowAliases(BundleOf(decimals, port, pairs, hash), port)
  {
    hide Semver.RuntimeSemver, Assigned, Carries, ArgumentsFollowAliases, FirstNames;
    AssignedCarries(pairs, hash, BundleOf(decimals, port, pairs, hash));
    BundledArguments(port, BundleOf(decimals, port, pairs, hash));
  }

  lemma AssignedCarries(pairs: seq<(string, Content)>, hash: Content -> Digest, bundle: RuntimeBundle)
    requires NoRepeats(FirstNames(pairs))
    requires bundle.modules == Assigned(pairs, hash).modules
    requires bundle.commandModules == Assigned(pairs, hash).commandModules
    ensures Carries(bundle, pairs, hash)
  {
    hide Assigned, OneModuleEach, Digests, FirstNames, RunsCarrier, NoRepeats;
    forall i | 0 <= i < |pairs|
      ensures RunsCarrier(bundle, pairs[i].0, hash(pairs[i].1), hash)
    {
      PairIsCarried(pairs, hash, bundle, i);
    }
    OneModulePerDigest(pairs, hash);
    CommandsAssigned(pairs, hash);
    ModulesDiffer(pairs, hash);
  }

  lemma PairIsCarried(pairs: seq<(string, Content)>, hash: Content -> Digest, bundle: RuntimeBundle, i: nat)
    requires NoRepeats(FirstNames(pairs)) && i < |pairs|
    requires bundle.modules == Assigned(pairs, hash).modules
    requires bundle.commandModules == Assigned(pairs, hash).commandModules
    ensures RunsCarrier(bundle, pairs[i].0, hash(pairs[i].1), hash)
  {
    hide Assigned, FirstNames, NoRepeats;
    ModulesIndexed(pairs, hash);
    RunsOwnModule(pairs, i, hash);
  }

  lemma BundledArguments(port: Port, bundle: RuntimeBundle)
    requires ValidPort(port) && port.UserVisible()
    requires bundle.arguments == BundleArguments(port, bundle.commandModules.Keys)
    ensures ArgumentsFollowAliases(bundle, port)
  {
  }

  /** With no command listed twice anywhere, the collision error cannot occur, and no alias
      argument reaches a command of a dependency. */
  lemma NoCollisionWithoutDoubleListing(ports: Ports, root: Name, deps: seq<Name>, installed: Binaries,
                                        stages: map<Name, Binaries>)
    requires Validated(ports) && root in ports && IsClosure(ports, root, deps)
    requires forall d :: d in deps ==> d in ports
    requires AllPresent(ports, root, deps, installed, stages)
    requires forall n :: n in ports ==> !ListsTwice(ports[n])
    ensures NoRepeats(FirstNames(OwnBinaries(ports, root, deps, installed, stages)))
    ensures forall d, c :: d in deps && c in ports[d].Commands() && ports[root].UserVisible()
              ==> c !in ports[root].Aliases()
  {
    CollisionsComeFromOnePort(ports, root, deps, installed, stages);
    assert ValidPort(ports[root]);
  }
}
