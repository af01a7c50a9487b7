# Verification model of the package pipeline

The repository builds third-party programs for a WASIX target, packages them, records acceptance
evidence for them and publishes the accepted ones. These Dafny modules model the algorithms that the
pipeline's correctness rests on and prove what each of them is for.

| module | models | main results |
|---|---|---|
| `Graphs` | the dependency graphs that three searches and a worklist share | walks, cycles and finishing orders; an order that lists every name after its successors excludes cycles |
| `Catalog` | `validate_catalog` | acceptance exactly when the manifest checks hold and the build graph is acyclic |
| `RuntimeClosure` | `runtime_bundle_dependencies` | the returned list is the reachable set in dependency order; failure exactly when something reachable cannot be bundled |
| `Bundle` | `build_runtime_bundle` | a command collision never involves two ports; every command runs its own binary |
| `Builds` | `build_port`, `process_batch` | each container at most once, no circular error, failure exactly when a started container fails; every call that could come next returns a completed build exactly if no container broke over a marker |
| `Acceptance`, `Publish` | `acceptance.py`, the pool refresh of `repository.py` | over every history of commands, the stable pool is exactly the fully checked artifacts |
| `RustCache` | `refresh_rust_target_cache` | under crashes at any step, a returned refresh leaves only artifacts of its fingerprint, exactly if no marker is written after its own deletion left a stale one |
| `SymlinkTrees`, `SymlinkGrafts`, `SymlinkCopies`, `Symlinks`, `SymlinkPasses` | `materialize_package_symlinks` | no link is left and every path reads what following the links read, with the exact conditions; when the loop succeeds |
| `HardLinks` | the hard-link preserving copy and the installed size | links are kept exactly; the size is that of the distinct files in any walk order |
| `Archive` (with `Text`) | `debian_archive_members` | reading a rendered archive gives the members back; the exact condition under which the loop ends |
| `Base64` | `b64_ntop` | the encoding of section 4 of RFC 4648, written inside the buffer; decoding inverts it |
| `Cmsg` | the ancillary-data macros | walking what was packed visits exactly the packed headers; when a walk ends |
| `Semver` | `runtime_semver` | the result is a Semantic Version, is a fixed point, and keeps the order of versions with one exact exception |
| `Worklist` | the worklist of `runtime-acceptance.sh` | exactly the packages reachable over `depends` |
| `Patching` | `replace` and `dedupe` of the crossterm patch | both are idempotent; `dedupe` only ever merges doubled blocks |

Code that updates state in place is modelled by classes and loops (`CycleCheck`, `Closure`, `Builder`,
`AcceptanceStore`, `Repository`, the two `PackageRoot` classes, `RustTargetCache`, `SourceTree`, the
array writer `B64Ntop`); each of their methods is proved against a function or predicate about which
the lemmas then speak. The modelled error branches carry error values of their own, so the contracts
speak about failures as well as successes.

Files are abstract strings or byte sequences; a digest is an unspecified function of the bytes and is
never assumed to be injective. A container run is an arbitrary function of the port and the merged
prefix that fails before touching the stage, fails after clearing it, or leaves a stage.

## Where the code does less than it is meant to

* A size field of -60 or -61 in an ar header leaves the reader's offset where it was, so the reader
  never ends (`StuckMemberNeverEnds`, with a concrete file in `ForgedFileNeverEnds`). It ends on a
  file exactly when it is done within twice as many passes as the file has bytes.
* `build_port` does not remove the old completion marker before the container clears the stage. If
  a container then fails and leaves something, the marker vouches for a partial stage, and the next
  cached call returns it (`PartialStageIsServed`). `NextCallsAreSafeExactly` gives the exact condition
  for every call that could come next, `ReturnedStagesAreCompleted` the one for a given call.
* `refresh_rust_target_cache` ignores errors of the deletion, so an artifact that could not be deleted
  passes for fresh (`IgnoredErrorServesStale`). `FreshExactly` is the exact condition.
* `materialize_package_symlinks` resolves `..` without asking for a directory, so a link that leads
  nowhere can be found to lead to a file and gains content it did not have (`FoundLinkMeansNothing`,
  `DanglingLinkGains`); `FileStepExactly` and `FileLinksExactly` give the exact conditions. It replaces
  links one after the other, so a target that steps up behind a replaced link to a directory reads
  from another directory (`ClimbingLinkReadsAnother`). It removes a link before it copies, so a link to
  the directory it stands in loses the paths through itself (`OwnParentAlwaysLoses`).
* The size test of `b64_ntop` wraps for sources longer than 3221225469 bytes, and the returned `int`
  is the length only up to 1610612733 bytes.
* The fourth component of a version becomes a pre-release identifier, so by item 11 of Semantic
  Versioning `1.2.3.1` precedes `1.2.3`. `PrecedenceIsComponentOrder` says that this is the only way
  in which the order changes.
* A step of `CMSG_NXTHDR` is unsound for a zero length and for a length whose alignment wraps, and it
  needs room for one more header below the top of the address space.

## Model

| member | source | states |
|---|---|---|
| `Graphs.ClosedChainIsCycle` | scripts/ports.py:226-255 | a chain that a circularity error reports really closes a cycle, and its last name lies on it |
| `Graphs.FinishedIsNotOnCycle` | scripts/ports.py:234-252 | a name that a depth-first search has finished lies on no cycle, because everything reachable from it was finished earlier |
| `Graphs.ClosedSetHoldsReachable` | scripts/runtime-acceptance.sh:81-89 | a set closed under dependencies that holds the start holds everything reachable from it |
| `Catalog.CheckManifests` | scripts/ports.py:214-239 | the manifest loop passes exactly when enough ports are visible, every manifest is valid, no command belongs to two different ports and every dependency of the three kinds is known; every complaint is true of the ports that it names |
| `Catalog.ClaimCommands` | scripts/ports.py:221-225 | the command table maps each command seen to the one port that lists it; the conflict error means that two different ports really list a command |
| `Catalog.CycleCheck.Visit` | scripts/ports.py:240-252 | `visiting` is always the current chain, `visited` is closed under dependencies and in finishing order; a circularity error carries a real walk whose last name occurs earlier in it; the search ends on every graph |
| `Catalog.FinishedCoversAll` | scripts/ports.py:254-255 | once every port has been finished, the build graph has no cycle |
| `Catalog.ValidateCatalog` | scripts/ports.py:214-255 | the catalog is accepted exactly when the manifest checks hold and the build graph is acyclic; every error is true of the catalog, and a circularity error appears only when all other checks hold |
| `RuntimeClosure.Closure.Visit` | scripts/ports.py:1167-1185 | the postorder search keeps its list in finishing order, apart from the chain, and made of needed, visible ports only; each error blames a needed name that cannot be bundled |
| `RuntimeClosure.RuntimeBundleDependencies` | scripts/ports.py:1162-1194 | success exactly when every name reachable from the root's direct dependencies is known, visible and on no cycle; the list is then exactly that set, without repeats, dependencies first and without the root, although the root is never put in `visiting` |
| `RuntimeClosure.BlamedIsNotBundleable` | scripts/ports.py:1167-1174 | every error of the closure points at a needed name that no closure could hold |
| `Bundle.GatherCommands` | scripts/ports.py:1207-1223 | gathering succeeds exactly when every needed binary is there; the pairs are then exactly the bundled commands with their own binaries, and an error names a binary that is missing |
| `Bundle.OwnBinariesAreOwn` | scripts/ports.py:1208-1223 | a root command is paired with the installed file of its own name, or of its alias target's name, a dependency's command with the file in that dependency's stage, and with nothing else |
| `Bundle.RepeatsComeFromOnePort` | scripts/ports.py:221-225 | in a catalog whose commands belong to one port each, the commands of distinct ports repeat only if one of these ports lists a command twice |
| `Bundle.CollisionsComeFromOnePort` | scripts/ports.py:1225-1228 | the collision error fires exactly when a single bundled port lists a command twice, never between two ports |
| `Bundle.NoCollisionWithoutDoubleListing` | scripts/ports.py:1225-1228 | after validation and a successful closure, with no command listed twice by its own port, the collision error cannot fire and no alias of the root names a dependency's command |
| `Bundle.AssignModules` | scripts/ports.py:1239-1256 | the module loop builds the assignment about which the next four lemmas speak |
| `Bundle.ModulesIndexed` | scripts/ports.py:1241-1256 | every digest indexes a module that carries it |
| `Bundle.OneModulePerDigest` | scripts/ports.py:1241-1256 | there are as many modules as distinct digests among the binaries |
| `Bundle.ModulesDiffer` | scripts/ports.py:1241-1256 | no two modules carry the same digest, and every module carries that of a given binary |
| `Bundle.CommandsAssigned` | scripts/ports.py:1241-1256 | exactly the gathered commands get a module |
| `Bundle.RunsOwnModule` | scripts/ports.py:1241-1256 | with distinct commands, no later binary takes a command's module away |
| `Bundle.BundleCarries` | scripts/ports.py:1239-1269 | each command runs one existing module with its own binary's digest, and arguments reach exactly the root's aliases that have some |
| `Bundle.CarriersAreOwn` | scripts/ports.py:1207-1256 | in terms of commands and files: every bundled command runs a module with the digest of its own binary, nothing else is bundled, and equal binaries share one module |
| `Bundle.BundleCommands` | scripts/ports.py:1203-1271 | a bundle comes about exactly when all binaries are there, no port lists a command twice and the version has a usable number; every command then runs its own binary, with the entry point, the version and the alias arguments of the root |
| `Bundle.BuildRuntimeBundle` | scripts/ports.py:1197-1276 | on a validated catalog the whole step fails in the closure exactly when something needed cannot be bundled; no bundle is made exactly for a single command without dependencies; a collision always comes from one port's own list; every bundled command runs its own binary |
| `Builds.Builder.BuildPort` | scripts/ports.py:980-1134 | the recursive driver with its path stack, on every dependency graph, ends and computes the build function that the following lemmas are about |
| `Builds.BuildRunsOnce` | scripts/ports.py:1054-1134 | in one call no container runs twice, none that the cache could serve runs, none on the stack runs, and after success everything that ran is served by the cache |
| `Builds.RunsOnlyDependencies` | scripts/ports.py:1074-1081 | containers run only for the port and its transitive build dependencies |
| `Builds.BuildKeepsServed` | scripts/ports.py:1060-1068 | a call leaves alone every stage that the cache can serve |
| `Builds.BuiltFromDependencies` | scripts/ports.py:1070-1134 | a rebuilt stage is the container's output on exactly the dependencies' stages, merged in their order, as they stand afterwards |
| `Builds.LastDependencyWins` | scripts/ports.py:1070-1084 | the prefix holds a path exactly if a dependency installed it, and then as the last such dependency in the list has it |
| `Builds.StackIsUntouched` | scripts/ports.py:1074-1081 | while a port waits for its dependencies, no nested call changes its marker or its stage |
| `Builds.InvalidMarkerGoes` | scripts/ports.py:1060-1068 | a cached stage that fails validation loses its marker; afterwards the port has one exactly if the rebuild completed |
| `Builds.NoCircularError` | scripts/ports.py:988-990 | on a validated catalog neither the circularity error nor a missing dependency can occur at any depth |
| `Builds.TopLevelCall` | scripts/ports.py:980-1134 | one top-level call on a validated catalog, diamonds included, runs each transitive dependency at most once and never meets its own stack |
| `Builds.CatalogErrorsAreTrue` | scripts/ports.py:988-990 | on any catalog a reported chain is a walk that closes a cycle, and a missing dependency is one that the port leads to |
| `Builds.ContainerSucceedsExactly` | scripts/ports.py:1123-1134 | a container run returns a stage exactly if it finishes with one that validates, whatever prefix it was given; the error says whether it failed, left no stage or left an invalid one |
| `Builds.BuildIsSettled` | scripts/ports.py:1054-1134 | on any catalog a call ends at the first container that breaks and reports that one, and the log names exactly the containers that were started |
| `Builds.BuildFailsExactly` | scripts/ports.py:980-1134 | on a validated catalog a call fails exactly if a container that it starts does not finish with a valid stage, and reports how that run ended |
| `Builds.CompletingContainersBuild` | scripts/ports.py:980-1134 | if the containers of a port and of all its transitive dependencies complete, the call succeeds |
| `Builds.ContainerVouchesExactly` | scripts/ports.py:1122-1134 | in any tree, a container run that gets under way leaves its port's marker vouching for the stage beside it exactly unless a marker was there and the run breaks leaving a stage that no build under that marker completed with |
| `Builds.BuildIsCoherentExactly` | scripts/ports.py:1054-1134 | a call keeps all markers truthful exactly if no container that it starts, at any depth, is one that breaks over a marker in this way, judged when it starts |
| `Builds.CleanWorldsDoNotSpoil` | scripts/ports.py:610-611 | where no container fails after clearing the stage and leaving another, no call breaks over a marker |
| `Builds.CoherentRunsExactly` | scripts/ports.py:610-611 | over a whole run of calls, the markers are truthful throughout exactly if no container run of the run spoilt its port |
| `Builds.NextCallExactly` | scripts/ports.py:1060-1068 | the markers of a tree are truthful exactly if every call that could come next, in any world, returns completed and valid stages only |
| `Builds.NextCallsAreSafeExactly` | scripts/ports.py:1054-1134 | at every point of a run, whatever is asked next is answered with completed stages only, exactly if no container run spoilt its port |
| `Builds.CleanRunsAreSafe` | scripts/ports.py:610-611 | runs in which no container fails after clearing the stage and leaving another meet that condition |
| `Builds.ReturnsCompletedExactly` | scripts/ports.py:1060-1068 | in any tree whatever, only a stage served from the cache can fail to be one that a build with the current fingerprint completed with |
| `Builds.ReturnedStagesAreCompleted` | scripts/ports.py:1060-1068 | on every run without any hypothesis, a call returns a valid stage of a completed build exactly unless it is served from the cache at a port whose last container run broke under a marker that does not vouch for what it left |
| `Builds.PartialStageIsServed` | scripts/ports.py:1123-1133 | a rebuild that breaks over a completed build lets the next cached call return a stage that no build ever completed |
| `Builds.Builder.ProcessBatch` | scripts/ports.py:1480-1501 | a batch builds every listed port uncached and goes on after a failure |
| `Builds.BatchIsARun` | scripts/ports.py:1486-1495 | a batch is a run of uncached top-level calls, and reports each port as passed exactly if its call returned a stage |
| `Acceptance.AcceptanceStore.Execute` | scripts/acceptance.py:89-113 | after every command, accepted or rejected, the stored records say exactly what the history of commands says, down to the evidence kept for each check; the reply tells whether evidence was accepted and whether it made the package stable |
| `Acceptance.RecordsReflectHistory` | scripts/acceptance.py:41-113 | after every history of accepted and rejected commands, a package's record exists exactly if it was bound, names the last binding, holds exactly the checks accepted since that binding last changed, all for the bound artifact, and its stored flag equals `is_stable` |
| `Acceptance.StableExactlyWhenFullyChecked` | scripts/acceptance.py:61-70 | a package is stable exactly when it is bound to a non-empty digest and all eleven checks were accepted since the last bind that changed version or artifact |
| `Acceptance.EvidenceTakenExactlyWhenItMatches` | scripts/acceptance.py:98-112 | evidence is taken exactly when it is non-empty and names the bound artifact at the bound version; otherwise nothing changes; the reply `stable` is true |
| `Acceptance.StableReplyExactly` | scripts/acceptance.py:98-112 | evidence is answered with `stable` exactly if it is accepted and the history then has every check accepted since the binding last changed |
| `Acceptance.RecordsKeepLastEvidence` | scripts/acceptance.py:104-109 | every stored check holds the path and the digests of the evidence that was accepted for it last |
| `Acceptance.ChangedBindingResets` | scripts/acceptance.py:89-97 | a bind that changes the version or the artifact forgets every check and cannot leave the package stable |
| `Publish.Repository.BuildRepository` | scripts/repository.py:113-138 | the refresh succeeds exactly when every visible port has a readable current artifact; then the pool's packages are exactly the publishable ones, byte for byte, with nothing stale; otherwise the pool is untouched and the error names a missing or unreadable artifact of a visible port |
| `Publish.Repository.UnlinkStale` | scripts/repository.py:129-130 | all package files leave the pool and nothing else does |
| `Publish.Repository.Copy` | scripts/repository.py:131-138 | skipping a target with an equal digest still leaves the pool equal to the selected artifacts |
| `Publish.ApprovedByHistory` | scripts/repository.py:132-135 | approval by the stored record is the same as approval by the history of commands |
| `Publish.StablePoolIsExactlyTheAccepted` | scripts/repository.py:113-138 | after any acceptance history, an artifact is in the refreshed stable pool exactly when its very bytes are bound at the current version with every check accepted since |
| `Publish.CandidatePoolIsEverything` | scripts/repository.py:129-138 | whatever acceptance says, a refreshed candidate pool holds exactly the artifacts of all visible ports, byte for byte |
| `Publish.ArtifactsAreDistinct` | scripts/repository.py:124 | an artifact file determines its package, because a package name cannot contain the separator, and its Debian version |
| `RustCache.SortedSetIsAscending` | scripts/ports.py:316 | the sorted set of inputs ascends and holds exactly the inputs |
| `RustCache.FingerprintIgnoresOrder` | scripts/ports.py:314-321 | the fingerprint depends neither on the order nor on repetitions of the inputs |
| `RustCache.InputsAreDigested` | scripts/ports.py:314-320 | the digested text begins with the release and holds the name and the bytes of every input that is a file |
| `RustCache.EditChangesText` | scripts/ports.py:314-320 | editing any input that is a file changes the text that is digested |
| `RustCache.StepKeepsTruth` | scripts/ports.py:322-348 | each step keeps an intact marker truthful exactly unless it writes the marker over an artifact of another fingerprint |
| `RustCache.StaleExactlySinceDeletion` | scripts/ports.py:333-335 | while a refresh is writing its marker, the directory holds a stale artifact exactly if the deletion of the same refresh left one |
| `RustCache.FreshExactly` | scripts/ports.py:309-348 | over every interleaving of refreshes, target switches, compilations and crashes: whenever a refresh has returned, everything in its target's directory was built under its fingerprint, exactly if no refresh writes its marker after its own deletion left a stale artifact |
| `RustCache.CompleteDeletionsAreEnough` | scripts/ports.py:334 | deletions that complete meet that condition |
| `RustCache.IgnoredErrorServesStale` | scripts/ports.py:334 | an ignored deletion error lets a stale artifact survive a refresh that returned |
| `RustCache.StepLosesByDeletion` | scripts/ports.py:333-334 | an artifact is lost only to a deletion of its own target, and that begins only by a refresh that finds another target, another fingerprint or no intact marker |
| `RustCache.ArtifactStays` | scripts/ports.py:322-334 | over every run, a compiled artifact stays until such a refresh |
| `RustCache.RustTargetCache.Refresh` | scripts/ports.py:309-348 | the function is the undisturbed sequence of the steps above; unless the target or the fingerprint changed it leaves all artifacts alone, and otherwise it touches its own target's only |
| `SymlinkTrees.ResolveFollowsMeaning` | scripts/ports.py:1145-1150 | a resolution that ends at an existing node and steps up from directories only leads where the path leads in the installed package, through links to links and to directories |
| `SymlinkTrees.MeaningClimbs` | scripts/ports.py:1145-1150 | a path that leads somewhere in the installed package is resolved without a step up from anything but a directory, and to nowhere else |
| `SymlinkTrees.ResolutionIsMeaningExactly` | scripts/ports.py:1145-1150 | where the code finds a node, the path leads there exactly if the resolution steps up from directories only, and otherwise leads nowhere |
| `SymlinkTrees.MeaningIsResolved` | scripts/ports.py:1145-1150 | a path that leads somewhere through relative links without climbing above the package root is resolved to that place; resolving it never meets its own links again |
| `SymlinkTrees.FoundInsideExactly` | scripts/ports.py:1145-1154 | a path leads to a node inside the package exactly if the code finds that node and steps up from directories only |
| `SymlinkCopies.TreeIsCopiedExactly` | scripts/ports.py:1156-1157 | a successful copy of a directory holds exactly what names below it lead to, with links followed, exactly if every link met there leads somewhere |
| `SymlinkCopies.CopySucceedsExactly` | scripts/ports.py:1156-1157 | a copy of a directory whose links all lead somewhere succeeds exactly if they lead there inside the package and no directory below is reached by more names than the limit |
| `SymlinkGrafts.GraftKeepsReads` | scripts/ports.py:1155-1159 | putting a copy of what a link leads to in its place leaves what every path reads, in both directions; for a file without further conditions, for a directory if no target steps up behind a link to a directory |
| `SymlinkGrafts.GraftKeepsLinks` | scripts/ports.py:1155-1159 | one such replacement leaves no link dangling that was not, brings no link to lead to its own directory, and lets no target step up behind a link that did not |
| `SymlinkGrafts.GraftIsWellFormed` | scripts/ports.py:1155-1159 | after any replacement the tree is still a tree |
| `Symlinks.PackageRoot.MaterializeLink` | scripts/ports.py:1144-1159 | one pass replaces the link by the copy of what is found, or fails with the error for an escape, a missing target or a failed copy; the first two leave the tree alone |
| `Symlinks.PassesExactly` | scripts/ports.py:1150-1159 | which of the three errors a pass ends with, by what is found; a link to a file always goes through, and what is found is never itself a link |
| `SymlinkPasses.FollowedLinkPassesExactly` | scripts/ports.py:1150-1159 | a pass over a link that leads somewhere goes through exactly if the link stays inside the package and, for a directory, so do the links met below it, within the limit; it reports an escape exactly if the link itself leaves the package |
| `Symlinks.PackageRoot.MaterializePackageSymlinks` | scripts/ports.py:1137-1159 | for every tree and every order of the links: success leaves no symbolic link, nothing but links changes, and if no link dangles, none leads to its own directory and no target steps up behind a link to a directory, every path reads what it read |
| `Symlinks.WholesomeTreesKeepReads` | scripts/ports.py:1144-1159 | under these conditions no path reads anything else at any point of the loop, chains of links and links to directories included |
| `SymlinkPasses.LoopPassesExactly` | scripts/ports.py:1137-1159 | under these conditions the loop succeeds exactly if every pass, when its turn comes, stays inside the package and within the limit |
| `SymlinkPasses.ContainedExactly` | scripts/ports.py:1146-1152 | under these conditions all links lead inside the package through relative links exactly if none is absolute and no target climbs above the root |
| `SymlinkPasses.ContainedTreesPass` | scripts/ports.py:1137-1159 | if moreover all links lead inside the package, the loop succeeds within the limit that bounds the names of the package's directories |
| `SymlinkPasses.ContainedTreesPassExactly` | scripts/ports.py:1137-1159 | such a loop succeeds with some limit exactly if no directory can be reached by arbitrarily many names, as through a link to a directory above it |
| `Symlinks.FileStepExactly` | scripts/ports.py:1144-1159 | in any tree, a pass that finds a file changes nothing that is read exactly if its resolution steps up from directories only, which is exactly if the link leads somewhere |
| `Symlinks.FileLinksExactly` | scripts/ports.py:1137-1159 | where every pass finds a file, the loop succeeds, and it changes nothing that is read exactly if no link of the package dangles |
| `Symlinks.DanglingLinkGains` | scripts/ports.py:1150-1159 | any file that ends up at or below a dangling link is content that no path read before |
| `Symlinks.ClimbingLinkKeepsReadsExactly` | scripts/ports.py:1146-1150 | a link whose target steps up reads the same before and after exactly if the rest of its target reads the same from beside the two places where it steps up |
| `Symlinks.ClimbingLinkReadsAnother` | scripts/ports.py:1144-1159 | a link that steps up behind a replaced link to a directory reads the file beside the link instead of the one beside the directory, so reads change whenever the two files differ |
| `Symlinks.OwnParentAlwaysLoses` | scripts/ports.py:1155-1157 | whenever a link to the directory it stands in is replaced and anything below that directory can be read, a path that could be read before is lost |
| `Symlinks.OwnParentLosesPaths` | scripts/ports.py:1155-1157 | a concrete tree on which this happens, whatever the nesting limit |
| `Symlinks.FoundLinkMeansNothing` | scripts/ports.py:1146-1150 | a target with a step up behind a link to a file resolves to a file although the path means nothing |
| `HardLinks.PackageRoot.CopyPreservingHardlinks` | scripts/ports.py:1288-1299 | copying one more file keeps the copies so far linked as their sources are |
| `HardLinks.PackageRoot.CopyTree` | scripts/ports.py:1286-1306 | in every order of the files, two copies share an inode exactly when their sources do, and every copy has its source's bytes |
| `HardLinks.InstalledSize` | scripts/ports.py:1347-1358 | the loop's size is that of the distinct inodes it met, in kilobytes rounded down plus one |
| `HardLinks.OrderDoesNotMatter` | scripts/ports.py:1349-1357 | two walks over the same files count the same inodes |
| `HardLinks.MirrorKeepsSize` | scripts/ports.py:1302-1357 | a copied tree has the installed size of its source |
| `Archive.DebianArchiveMembers` | scripts/repository.py:44-59 | where the reader ends at all, it returns the members or the error that the header rules determine |
| `Archive.ReadsOneResult` | scripts/repository.py:50-59 | a file has at most one reading |
| `Archive.BadHeaderExactly` | scripts/repository.py:51-53 | within the file a header is refused exactly if it is cut short or does not end in its two end bytes |
| `Archive.FailsExactly` | scripts/repository.py:50-58 | the reader fails with an error exactly if it comes to an offset whose header raises it |
| `Archive.TerminatesExactly` | scripts/repository.py:50-58 | for every file, the loop ends exactly if it never comes back to an offset, and exactly if it ends within twice as many passes as the file has bytes |
| `Archive.AdvanceMovesForward` | scripts/repository.py:56-58 | a pass moves forward exactly for sizes of at least -59 and stands still exactly for -60 and -61 |
| `Archive.ForwardSizesTerminate` | scripts/repository.py:50-58 | the loop ends if every member that it comes to has a size of at least -59, whatever the bytes look like elsewhere |
| `Archive.StuckMemberNeverEnds` | scripts/repository.py:55-58 | any member of size -60 or -61 that the loop comes to is read for ever |
| `Archive.ForgedFileNeverEnds` | scripts/repository.py:55-58 | a concrete file on which the reader never ends |
| `Archive.RenderThenRead` | scripts/repository.py:44-59 | reading an archive rendered by the deb(5) format returns its members, for every mix of odd and even sizes, whether names end in a slash or not and whether or not the last pad byte is there |
| `Archive.NamesByName` | scripts/repository.py:57 | the result has exactly the members' names |
| `Archive.DistinctNamesKeepAll` | scripts/repository.py:57 | with distinct names every member keeps its content |
| `Base64.EncodeInto` | ports/netcat-openbsd/netcat_compat.c:154-169 | the loop writes the RFC 4648 encoding at the start of the buffer and nothing behind it |
| `Base64.B64Ntop` | ports/netcat-openbsd/netcat_compat.c:142-172 | a buffer that is too small is refused untouched with EMSGSIZE; otherwise it holds the encoding, a terminator and its old rest, and the length is returned as an `int` |
| `Base64.EncodeByGroups` | ports/netcat-openbsd/netcat_compat.c:154-169 | the bit-level encoding of section 4 of RFC 4648 can be computed in groups of three bytes |
| `Base64.GroupEncoded` | ports/netcat-openbsd/netcat_compat.c:155-168 | one pass of the loop, for all three residues, adds the encoding of its group with the right padding |
| `Base64.EncodeHasEncodedLength` | ports/netcat-openbsd/netcat_compat.c:150 | an encoding has four characters for every started group of three bytes |
| `Base64.SizeTestGuardsExactly` | ports/netcat-openbsd/netcat_compat.c:150-153 | the size test protects the buffer for exactly the source lengths at which it does not wrap |
| `Base64.ReturnIsLengthExactly` | ports/netcat-openbsd/netcat_compat.c:171 | the returned `int` is the number of characters for exactly the lengths up to 1610612733 |
| `Base64.DecodeEncode` | ports/netcat-openbsd/netcat_compat.c:142-172 | a decoder recovers every byte sequence from its encoding |
| `Cmsg.MaskSubtractsRemainder` | pipeline/wasix-compat.h:67-68 | the mask form of alignment, on 32-bit words, subtracts the remainder |
| `Cmsg.MaskIsLeastMultiple` | pipeline/wasix-compat.h:67-68 | the mask form gives a multiple of the word size, not above any multiple that is not below the length, and not below the length exactly up to 0xFFFFFFFC |
| `Cmsg.AlignIsLeastMultipleExactly` | pipeline/wasix-compat.h:67-68 | alignment gives the least multiple of the word size not below the length, exactly for lengths whose sum does not wrap |
| `Cmsg.FirstHeaderExactly` | pipeline/wasix-compat.h:75-77 | a first header is given exactly if a whole header lies in the buffer |
| `Cmsg.StepIsSoundExactly` | pipeline/wasix-compat.h:78-83 | a step ends the walk or moves forward to a header inside the buffer exactly when the length is positive and nothing wraps |
| `Cmsg.ZeroLengthIsStuck` | pipeline/wasix-compat.h:78-83 | a zero length is stepped to for ever |
| `Cmsg.WalkEnds` | pipeline/wasix-compat.h:75-83 | a walk that goes on only from positive lengths without wrap-around, at the headers that it gets to, ends, ascending, inside the buffer |
| `Cmsg.WalkIsUnique` | pipeline/wasix-compat.h:78-83 | the lengths determine the walk |
| `Cmsg.WalkVisitsPacked` | pipeline/wasix-compat.h:71-83 | from any packed header on, the walk visits exactly the packed headers, in order and in bounds |
| `Cmsg.PackThenWalk` | pipeline/wasix-compat.h:71-83 | packing any list of payloads with CMSG_SPACE and CMSG_LEN and walking it with CMSG_FIRSTHDR and CMSG_NXTHDR visits exactly those headers |
| `Cmsg.LastStepNeedsRoom` | pipeline/wasix-compat.h:78-83 | the walk ends at the last packed header exactly when one more header fits below the top of the address space |
| `Semver.SemverRendersComponents` | scripts/ports.py:449-458 | for the decimal digits of all of Unicode, the function succeeds exactly on versions with a digit whose digit runs Python converts, and writes the version's numbers in ASCII, padded to three |
| `Semver.RereadingGivesComponents` | scripts/ports.py:449-458 | reading the digits of the result gives the zero-padded components back |
| `Semver.SemverIsIdempotent` | scripts/ports.py:449-458 | normalizing a second time changes nothing |
| `Semver.RenderedIsSemVer` | scripts/ports.py:453-458 | the rendered numbers parse by items 2 and 9 of Semantic Versioning 2.0.0, and the parse returns them |
| `Semver.ResultIsSemVer` | scripts/ports.py:449-458 | every result is in that grammar |
| `Semver.PrecedenceIsComponentOrder` | scripts/ports.py:453-458 | item 11 precedence of two results equals the order of their components except, exactly, for two versions with the same first three of which only one goes on |
| `Worklist.Select` | scripts/runtime-acceptance.sh:80-89 | the selected set is exactly what is reachable over `depends`, cycles included; it fails exactly when a reachable name is unknown, and names such a one |
| `Patching.ReplacementOccurs` | ports/bat/patch_crossterm.py:15 | replacing all occurrences of a fragment that is there leaves the replacement in the text |
| `Patching.ReplacingRejoins` | ports/bat/patch_crossterm.py:15 | the text splits at every occurrence met from left to right, and the result joins the same pieces with the replacement |
| `Patching.CutIsUnique` | ports/bat/patch_crossterm.py:15 | there is only one such way to split a text |
| `Patching.InterleavingJoins` | ports/bat/patch_crossterm.py:15 | replacing the empty fragment puts the replacement before, between and after the characters |
| `Patching.ReplacingTwiceIsReplacingOnce` | ports/bat/patch_crossterm.py:8-15 | a second guarded replacement changes nothing |
| `Patching.ReplacingCollapses` | ports/bat/patch_crossterm.py:22 | replacing doubled blocks amounts to merging adjacent blocks one pair at a time |
| `Patching.ReplacingShortens` | ports/bat/patch_crossterm.py:21-22 | each pass that finds a doubled block shortens the text, so the loop ends |
| `Patching.DedupeText` | ports/bat/patch_crossterm.py:18-23 | the loop ends with no doubled block, having only merged adjacent blocks, and leaves a text without one alone |
| `Patching.SourceTree.Replace` | ports/bat/patch_crossterm.py:8-15 | after success the file holds the new fragment and a second call would change nothing; after failure nothing changed, and the error says whether the file or the fragment is missing |
| `Patching.SourceTree.Dedupe` | ports/bat/patch_crossterm.py:18-23 | the file is collapsed, a second call changes nothing, and no other file changes |

## Left out

- Catalog.ValidateCatalog: keeps the manifest checks that later stages rely on (names, aliases, dependencies, version and revision present); the remaining per-field checks of `validate_port` are single branches.
- Builds.Builder.BuildPort: fetching, tool-chain checks and the generated build script come before or inside the abstract container run; a stage stands for its `usr/local` tree, and merging stages overwrites files path by path. A marker torn by a crash while it is written is not modelled.
- Bundle.BuildRuntimeBundle: takes the dependencies' stages as given; that a call returns the right ones is what `Builds` proves. Module k stands for the name `module-k`; the text of the manifest and the `wasmer` call are not modelled.
- Symlinks.PackageRoot.MaterializePackageSymlinks: promises unchanged reads for links to directories only where no link dangles, none leads to the directory it stands in and no target steps up behind a link to a directory; what happens otherwise is stated by `DanglingLinkGains`, `OwnParentAlwaysLoses` and `ClimbingLinkKeepsReadsExactly`, whose last condition compares what is read and cannot be told from the links alone. Nothing is said about the tree after a directory copy failed half-way.
- SymlinkPasses.ContainedTreesPassExactly: takes all links to be relative; an absolute link is replaced like any other when its own turn comes (`FollowedLinkPassesExactly`), but a link through it passes only after that, so the outcome then depends on the order of the links.
- SymlinkCopies.TreeIsCopiedExactly: an entry that leads through the very link being replaced is copied as it led before; the source may fail on such an entry, depending on the order in which the directory is listed.
- Symlinks.PackageRoot.MaterializeLink: an absolute link met in the middle of a chain is resolved by the host and counts as leaving the package, and so does a step above the package root; the nesting of copied directories is bounded by a parameter, as it is by the file system.
- SymlinkTrees.ResolveFollowsMeaning: a chain of links that comes back to a link while resolving it counts as a failure.
- HardLinks.PackageRoot.CopyTree: directories, symbolic links and file modes of the tree are not part of the file map, and the git-specific relinking in `package_port` is not modelled.
- Publish.Repository.BuildRepository: stops after the pool; the index, the Release file, signatures and the flat local copy are rendering and I/O.
- Acceptance.AcceptanceStore.Execute: a record file is written atomically, so no torn record is modelled; the `status` command only prints.
- Archive.DebianArchiveMembers: requires that the reader ends on the file, since on some files it does not; `TerminatesExactly` says on which.
- Base64.B64Ntop: `size_t` and `int` are 32 bits wide, shifts and masks are written as division and remainder, and source lengths at which the size test wraps are excluded.
- Cmsg.PackThenWalk: sizes and addresses are 32 bits wide; payload bytes, levels and types are not modelled, only where headers stand.
- Semver.SemverRendersComponents: which characters beyond ASCII are decimal digits, and their values, is a parameter, since it depends on the Unicode version of the interpreter.
- Patching.DedupeText: texts are character sequences; encodings and line-ending translation are not modelled.
- SHA-256, compression, downloads, gpg and subprocess calls are opaque.
- `load_batches`, the control-file and SBOM text, `configure_script` and argument parsing are left out as rendering or single branches.
- The other patch scripts, `strtonum` and the stubs in `pipeline/wasix-compat.c` are one-off edits, a library parser that is not here, and constant results.
