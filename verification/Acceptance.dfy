/** The acceptance records of scripts/acceptance.py: binding a package to an
    artifact, recording checks for it, and what makes it stable. */
module Acceptance {
  import opened Wrappers

  type Name = string
  type Digest = string

  datatype Check =
    | PristineSource
    | ReproducibleBuild
    | SourceChecksum
    | License
    | AptInstall
    | Version
    | Functional
    | AptUpgrade
    | AptRemove
    | AptPurge
    | Chrome

  datatype Evidence = Evidence(passed: bool, path: string, sha256: Digest, artifact: Digest)

  /** The JSON record of one package. Keys that may be absent are options. */
  datatype State = State(
    package: Name,
    version: string,
    checks: map<Check, Evidence>,
    artifact: Option<Digest>,
    stable: Option<bool>)

  type Store = map<Name, State>

  function Unbound(package: Name, version: string): State {
    State(package, version, map[], None, None)
  }

  /** A record of another version reads as no record; an empty version matches any. */
  function ReadState(store: Store, package: Name, version: string): State {
    if package in store then
      if version != "" && store[package].version != version then Unbound(package, version) else store[package]
    else Unbound(package, version)
  }

  predicate IsStable(data: State) {
    && data.artifact.Some? && data.artifact.value != ""
    && forall k: Check :: k in data.checks && data.checks[k].passed && data.checks[k].artifact == data.artifact.value
  }

  datatype EvidenceFile = EvidenceFile(path: string, size: nat, sha256: Digest)

  datatype Command =
    | Bind(package: Name, version: string, artifact: Digest)
    | Record(package: Name, version: string, check: Check, evidence: Option<EvidenceFile>, artifact: Digest)

  datatype Reply = Bound | Stable | Candidate | NoEvidence | WrongArtifact

  class AcceptanceStore {
    var files: Store
    ghost var history: seq<Command>

    ghost predicate Valid()
      reads this
    {
      files == Run(history)
    }

    constructor ()
      ensures Valid() && history == []
    {
      files, history := map[], [];
    }

    /** One invocation of the script. The records go on saying exactly what the history says. */
    method Execute(c: Command) returns (reply: Reply)
      requires Valid()
      modifies this
      ensures Valid() && history == old(history) + [c]
      ensures (files, reply) == Step(old(files), c)
      ensures forall p :: Reflects(files, history, p)
      ensures forall p, k :: KeepsLastEvidence(files, history, p, k)
      ensures c.Record? ==> (reply == Stable || reply == Candidate <==> Accepts(history, |history| - 1, c.package, c.check))
      ensures c.Record? ==>
                (reply == Stable <==>
                   && Accepts(history, |history| - 1, c.package, c.check)
                   && c.artifact != "" && forall k :: CheckedSinceBound(history, c.package, k))
    {
      history := history + [c];
      assert history[..|history| - 1] == old(history);
      ExecutedReflects(history);
      hide Reflects, Accepts, Run, KeepsLastEvidence, CheckedSinceBound;
      match c {
        case Bind(package, version, artifact) =>
          var data := ReadState(files, package, version);
          if data.artifact != Some(artifact) {
            data := data.(checks := map[]);
          }
          data := data.(artifact := Some(artifact));
          data := data.(stable := Some(IsStable(data)));
          files := files[data.package := data];
          return Bound;
        case Record(package, version, check, evidence, artifact) =>
          if evidence.None? || evidence.value.size == 0 {
            return NoEvidence;
          }
          var data := ReadState(files, package, version);
          if data.artifact != Some(artifact) {
            return WrongArtifact;
          }
          var entry := Evidence(true, evidence.value.path, evidence.value.sha256, artifact);
          data := data.(checks := data.checks[check := entry]);
          data := data.(stable := Some(IsStable(data)));
          files := files[data.package := data];
          return if data.stable == Some(true) then Stable else Candidate;
      }
    }
  }

  lemma ExecutedReflects(history: seq<Command>)
    requires history != []
    ensures forall p :: Reflects(Run(history), history, p)
    ensures var c := history[|history| - 1];
            && Run(history) == Step(Run(history[..|history| - 1]), c).0
            && (c.Record? ==>
                  var reply := Step(Run(history[..|history| - 1]), c).1;
                  && (reply == Stable || reply == Candidate <==> Accepts(history, |history| - 1, c.package, c.check))
                  && (reply == Stable <==>
                        && Accepts(history, |history| - 1, c.package, c.check)
                        && c.artifact != "" && forall k :: CheckedSinceBound(history, c.package, k)))
    ensures forall p, k :: KeepsLastEvidence(Run(history), history, p, k)
  {
    var before, c := history[..|history| - 1], history[|history| - 1];
    assert before + [c] == history;
    assert Run(history) == Step(Run(before), c).0;
    hide Reflects, Accepts, Run, Step, KeepsLastEvidence, CheckedSinceBound;
    forall p
      ensures Reflects(Run(history), history, p)
    {
      RecordsReflectHistory(history, p);
    }
    forall p, k
      ensures KeepsLastEvidence(Run(history), history, p, k)
    {
      RecordsKeepLastEvidence(history, p, k);
    }
    if c.Record? {
      EvidenceTakenExactlyWhenItMatches(history, |history| - 1);
      StableReplyExactly(before, c);
    }
  }

  /** The effect of one command on the stored records. */
  function Step(store: Store, c: Command): (Store, Reply) {
    var data := ReadState(store, c.package, c.version);
    match c
    case Bind(_, _, artifact) =>
      var kept := if data.artifact == Some(artifact) then data.checks else map[];
      var bound := data.(checks := kept, artifact := Some(artifact));
      (Write(store, bound), Bound)
    case Record(_, _, check, evidence, artifact) =>
      if evidence.None? || evidence.value.size == 0 then (store, NoEvidence)
      else if data.artifact != Some(artifact) then (store, WrongArtifact)
      else
        var entry := Evidence(true, evidence.value.path, evidence.value.sha256, artifact);
        var checked := data.(checks := data.checks[check := entry]);
        (Write(store, checked), if IsStable(checked) then Stable else Candidate)
  }

  function Write(store: Store, data: State): Store {
    store[data.package := data.(stable := Some(IsStable(data)))]
  }

  /** The records after a history of commands, accepted or rejected. */
  function Run(history: seq<Command>): Store {
    if history == [] then map[] else Step(Run(history[..|history| - 1]), history[|history| - 1]).0
  }

  // ---- What a history says, without any stored record ----

  /** What the bind commands of a history bound the package to last. */
  datatype Binding = Binding(version: string, artifact: Digest)

  function BoundTo(history: seq<Command>, p: Name): Option<Binding> {
    if history == [] then None
    else
      var before := BoundTo(history[..|history| - 1], p);
      var c := history[|history| - 1];
      if c.package != p || c.Record? then before
      else if c.version == "" && before.Some? then Some(Binding(before.value.version, c.artifact))
      else Some(Binding(c.version, c.artifact))
  }

  /** Command i offered non-empty evidence for the artifact and version bound at that point. */
  predicate Accepts(history: seq<Command>, i: nat, p: Name, k: Check)
    requires i < |history|
  {
    var c := history[i];
    var b := BoundTo(history[..i], p);
    && c.Record? && c.package == p && c.check == k
    && c.evidence.Some? && c.evidence.value.size > 0
    && b.Some? && b.value.artifact == c.artifact
    && (c.version == "" || c.version == b.value.version)
  }

  /** The binding has not changed from the first i commands on. */
  ghost predicate UnchangedSince(history: seq<Command>, i: nat, p: Name)
    requires i <= |history|
  {
    forall j :: i <= j <= |history| ==> BoundTo(history[..j], p) == BoundTo(history, p)
  }

  /** The check was accepted after the last bind that changed the version or the artifact. */
  ghost predicate CheckedSinceBound(history: seq<Command>, p: Name, k: Check) {
    exists i :: 0 <= i < |history| && Accepts(history, i, p, k) && UnchangedSince(history, i, p)
  }

  /** The stored record says what the history says, and nothing else. */
  ghost predicate Reflects(store: Store, history: seq<Command>, p: Name) {
    var b := BoundTo(history, p);
    && (p in store <==> b.Some?)
    && (p in store ==>
          var data := store[p];
          && data.package == p
          && data.version == b.value.version
          && data.artifact == Some(b.value.artifact)
          && data.stable == Some(IsStable(data))
          && (forall k :: k in data.checks <==> CheckedSinceBound(history, p, k))
          && (forall k :: k in data.checks ==> data.checks[k].passed && data.checks[k].artifact == b.value.artifact))
  }

  ghost predicate KeyedByPackage(store: Store) {
    forall q :: q in store ==> store[q].package == q
  }

  lemma {:induction false} RunIsKeyed(history: seq<Command>)
    ensures KeyedByPackage(Run(history))
  {
    if history != [] {
      RunIsKeyed(history[..|history| - 1]);
    }
  }

  lemma {:induction false} RecordsReflectHistory(history: seq<Command>, p: Name)
    ensures Reflects(Run(history), history, p)
  {
    if history != [] {
      var n := |history| - 1;
      RecordsReflectHistory(history[..n], p);
      RunIsKeyed(history[..n]);
      forall k
        ensures OneMore(history, p, k)
      {
        CheckedOneMore(history, p, k);
      }
      if history[n].package == p {
        OwnCommandReflects(Run(history[..n]), history, p);
      } else {
        OtherCommandReflects(Run(history[..n]), history, p);
      }
    }
  }

  /** Whether a check counts, one command further on. */
  ghost predicate OneMore(history: seq<Command>, p: Name, k: Check)
    requires history != []
  {
    var n := |history| - 1;
    CheckedSinceBound(history, p, k) <==>
      && BoundTo(history[..n], p) == BoundTo(history, p)
      && (Accepts(history, n, p, k) || CheckedSinceBound(history[..n], p, k))
  }

  lemma OtherCommandReflects(store: Store, history: seq<Command>, p: Name)
    requires history != [] && history[|history| - 1].package != p
    requires KeyedByPackage(store) && Reflects(store, history[..|history| - 1], p)
    requires forall k :: OneMore(history, p, k)
    ensures Reflects(Step(store, history[|history| - 1]).0, history, p)
  {
    var n := |history| - 1;
    var after := Step(store, history[n]).0;
    assert p in after <==> p in store;
    assert p in store ==> after[p] == store[p];
    forall k
      ensures CheckedSinceBound(history, p, k) <==> CheckedSinceBound(history[..n], p, k)
    {
      assert OneMore(history, p, k);
    }
  }

  lemma OwnCommandReflects(store: Store, history: seq<Command>, p: Name)
    requires history != [] && history[|history| - 1].package == p
    requires KeyedByPackage(store) && Reflects(store, history[..|history| - 1], p)
    requires forall k :: OneMore(history, p, k)
    ensures Reflects(Step(store, history[|history| - 1]).0, history, p)
  {
    var n := |history| - 1;
    var c := history[n];
    var data := ReadState(store, p, c.version);
    var after := Step(store, c).0;
    assert data.package == p;
    assert p in after ==> forall k :: k in after[p].checks <==> CheckedSinceBound(history, p, k) by {
      forall k | p in after
        ensures k in after[p].checks <==> CheckedSinceBound(history, p, k)
      {
        assert OneMore(history, p, k);
        if c.Record? {
          assert Accepts(history, n, p, k) <==>
              k == c.check && c.evidence.Some? && c.evidence.value.size > 0 && data.artifact == Some(c.artifact);
        }
      }
    }
  }

  lemma UnchangedOneMore(history: seq<Command>, i: nat, p: Name)
    requires i < |history|
    ensures var n := |history| - 1;
            UnchangedSince(history, i, p) <==>
              BoundTo(history[..n], p) == BoundTo(history, p) && UnchangedSince(history[..n], i, p)
  {
    var n := |history| - 1;
    var before := history[..n];
    assert history[..n + 1] == history;
    if UnchangedSince(history, i, p) {
      assert BoundTo(history[..n], p) == BoundTo(history, p);
      forall j | i <= j <= n
        ensures BoundTo(before[..j], p) == BoundTo(before, p)
      {
        assert before[..j] == history[..j];
      }
    }
    if BoundTo(before, p) == BoundTo(history, p) && UnchangedSince(before, i, p) {
      forall j | i <= j <= n + 1
        ensures BoundTo(history[..j], p) == BoundTo(history, p)
      {
        if j <= n {
          assert before[..j] == history[..j];
          assert BoundTo(before[..j], p) == BoundTo(before, p);
        }
      }
    }
  }

  lemma CheckedOneMore(history: seq<Command>, p: Name, k: Check)
    requires history != []
    ensures OneMore(history, p, k)
  {
    var n := |history| - 1;
    var before := history[..n];
    if CheckedSinceBound(history, p, k) {
      var i :| 0 <= i < |history| && Accepts(history, i, p, k) && UnchangedSince(history, i, p);
      UnchangedOneMore(history, i, p);
      if i < n {
        assert before[..i] == history[..i];
        assert Accepts(before, i, p, k);
      }
    }
    if BoundTo(before, p) == BoundTo(history, p) {
      if Accepts(history, n, p, k) {
        assert before[..n] == before;
        assert UnchangedSince(before, n, p);
        UnchangedOneMore(history, n, p);
      }
      if CheckedSinceBound(before, p, k) {
        var i :| 0 <= i < n && Accepts(before, i, p, k) && UnchangedSince(before, i, p);
        UnchangedOneMore(history, i, p);
        assert before[..i] == history[..i];
        assert Accepts(history, i, p, k);
      }
    }
  }

  /** The promise of the trust model, over every history: a package is stable exactly when it is
      bound to a non-empty digest and every check was accepted since that binding last changed. */
  lemma StableExactlyWhenFullyChecked(history: seq<Command>, p: Name)
    ensures var store := Run(history);
            (p in store && IsStable(store[p])) <==>
              && BoundTo(history, p).Some? && BoundTo(history, p).value.artifact != ""
              && forall k :: CheckedSinceBound(history, p, k)
  {
    RecordsReflectHistory(history, p);
  }

  lemma RecordMatchesBinding(history: seq<Command>, p: Name)
    ensures p in Run(history) <==> BoundTo(history, p).Some?
    ensures p in Run(history) ==>
              && Run(history)[p].package == p
              && BoundTo(history, p) == Some(Binding(Run(history)[p].version, Run(history)[p].artifact.GetOr("")))
              && Run(history)[p].artifact.Some?
  {
    RecordsReflectHistory(history, p);
  }

  /** Evidence is taken exactly when it is non-empty and names the bound artifact at the bound version;
      otherwise the records stay as they are. */
  lemma EvidenceTakenExactlyWhenItMatches(history: seq<Command>, i: nat)
    requires i < |history| && history[i].Record?
    ensures var c := history[i];
            var (after, reply) := Step(Run(history[..i]), c);
            && (reply == Stable || reply == Candidate <==> Accepts(history, i, c.package, c.check))
            && (reply == NoEvidence || reply == WrongArtifact ==> after == Run(history[..i]))
            && (reply == Stable ==> c.package in after && IsStable(after[c.package]))
            && (reply == Candidate ==> c.package in after && !IsStable(after[c.package]))
  {
    RecordMatchesBinding(history[..i], history[i].package);
  }

  /** Evidence is answered with `stable` exactly if it is accepted and makes the package fully checked. */
  lemma StableReplyExactly(history: seq<Command>, c: Command)
    requires c.Record?
    ensures Step(Run(history), c).1 == Stable <==>
              && Accepts(history + [c], |history|, c.package, c.check)
              && c.artifact != "" && forall k :: CheckedSinceBound(history + [c], c.package, k)
  {
    var longer := history + [c];
    assert longer[..|history|] == history && longer[|longer| - 1] == c && longer[..|longer| - 1] == history;
    EvidenceTakenExactlyWhenItMatches(longer, |history|);
    StableExactlyWhenFullyChecked(longer, c.package);
    assert Run(longer) == Step(Run(history), c).0;
    assert BoundTo(longer, c.package) == BoundTo(history, c.package);
    hide Run, Step, IsStable, CheckedSinceBound, BoundTo;
  }

  // ---- What evidence is kept ----

  /** Command i is the last one whose evidence for the check was accepted. */
  ghost predicate LastAccepted(history: seq<Command>, i: nat, p: Name, k: Check) {
    i < |history| && Accepts(history, i, p, k) && forall j :: i < j < |history| ==> !Accepts(history, j, p, k)
  }

  function EvidenceOf(c: Command): Evidence
    requires c.Record? && c.evidence.Some?
  {
    Evidence(true, c.evidence.value.path, c.evidence.value.sha256, c.artifact)
  }

  /** Every stored check holds the evidence that was accepted for it last. */
  ghost predicate KeepsLastEvidence(store: Store, history: seq<Command>, p: Name, k: Check) {
    p in store && k in store[p].checks ==>
      exists i: nat :: LastAccepted(history, i, p, k) && store[p].checks[k] == EvidenceOf(history[i])
  }

  lemma {:induction false} RecordsKeepLastEvidence(history: seq<Command>, p: Name, k: Check)
    ensures KeepsLastEvidence(Run(history), history, p, k)
  {
    if history != [] {
      var n := |history| - 1;
      var before, c := history[..n], history[n];
      RecordsKeepLastEvidence(before, p, k);
      RunIsKeyed(before);
      if c.Record? {
        EvidenceTakenExactlyWhenItMatches(history, n);
      }
      if Accepts(history, n, p, k) {
        assert LastAccepted(history, n, p, k);
      } else {
        UnacceptedKeepsEvidence(Run(before), history, p, k);
      }
    }
  }

  lemma StepKeepsCheck(store: Store, c: Command, p: Name, k: Check)
    requires KeyedByPackage(store)
    requires c.Record? && c.package == p && c.check == k ==> !Step(store, c).1.Stable? && !Step(store, c).1.Candidate?
    ensures var after := Step(store, c).0;
            p in after && k in after[p].checks ==>
              p in store && k in store[p].checks && after[p].checks[k] == store[p].checks[k]
  {
  }

  /** A command that does not have evidence accepted for the check leaves what is stored for it, or forgets it. */
  lemma UnacceptedKeepsEvidence(store: Store, history: seq<Command>, p: Name, k: Check)
    requires history != [] && KeyedByPackage(store)
    requires var n := |history| - 1;
             !Accepts(history, n, p, k) && KeepsLastEvidence(store, history[..n], p, k)
    requires var c := history[|history| - 1];
             c.Record? && (Step(store, c).1.Stable? || Step(store, c).1.Candidate?) ==>
               Accepts(history, |history| - 1, c.package, c.check)
    ensures KeepsLastEvidence(Step(store, history[|history| - 1]).0, history, p, k)
  {
    hide *;
    var n := |history| - 1;
    var after := Step(store, history[n]).0;
    StepKeepsCheck(store, history[n], p, k);
    if p in after && k in after[p].checks {
      var i := LastEvidence(store, history[..n], p, k);
      LastAcceptedOneMore(history, i, p, k);
      EvidenceIsKept(after, history, p, k, i);
    } else {
      NothingToKeep(after, history, p, k);
    }
  }

  lemma LastEvidence(store: Store, history: seq<Command>, p: Name, k: Check) returns (i: nat)
    requires KeepsLastEvidence(store, history, p, k) && p in store && k in store[p].checks
    ensures LastAccepted(history, i, p, k)
    ensures history[i].Record? && history[i].evidence.Some? && store[p].checks[k] == EvidenceOf(history[i])
  {
    i :| LastAccepted(history, i, p, k) && store[p].checks[k] == EvidenceOf(history[i]);
  }

  lemma LastAcceptedOneMore(history: seq<Command>, i: nat, p: Name, k: Check)
    requires history != [] && !Accepts(history, |history| - 1, p, k)
    requires LastAccepted(history[..|history| - 1], i, p, k)
    ensures LastAccepted(history, i, p, k)
  {
    hide BoundTo;
    var before := history[..|history| - 1];
    forall j | 0 <= j < |before|
      ensures Accepts(history, j, p, k) <==> Accepts(before, j, p, k)
    {
      assert before[..j] == history[..j];
    }
  }

  lemma EvidenceIsKept(store: Store, history: seq<Command>, p: Name, k: Check, i: nat)
    requires LastAccepted(history, i, p, k) && p in store && k in store[p].checks
    requires history[i].Record? && history[i].evidence.Some? && store[p].checks[k] == EvidenceOf(history[i])
    ensures KeepsLastEvidence(store, history, p, k)
  {
  }

  lemma NothingToKeep(store: Store, history: seq<Command>, p: Name, k: Check)
    requires !(p in store && k in store[p].checks)
    ensures KeepsLastEvidence(store, history, p, k)
  {
  }

  /** A bind that changes the version or the artifact forgets every check. */
  lemma ChangedBindingResets(history: seq<Command>, c: Command)
    requires c.Bind? && BoundTo(history + [c], c.package) != BoundTo(history, c.package)
    ensures var store := Run(history + [c]);
            c.package in store && store[c.package].checks == map[] && !IsStable(store[c.package])
  {
    var longer := history + [c];
    assert longer[..|longer| - 1] == history;
    RecordsReflectHistory(history, c.package);
    RunIsKeyed(history);
    var data := Run(longer)[c.package];
    assert Chrome !in data.checks;
  }
}
