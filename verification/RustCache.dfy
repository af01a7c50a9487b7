/** `refresh_rust_target_cache` of scripts/ports.py: when the compiled artifacts of
    a Rust target may be reused, and what a crash can leave behind. */
module RustCache {
  import opened Graphs
  import opened Text
  import opened Wrappers

  type Path = string
  type Target = string
  type Fingerprint = string

  const RELEASE := "v2026-08-06.1+rust-1.97"

  // ---- The fingerprint ----

  ghost predicate Ascending(s: seq<Path>) {
    forall i, j :: 0 <= i < j < |s| ==> Less(s[i], s[j])
  }

  function Insert(p: Path, s: seq<Path>): seq<Path> {
    if s == [] || Less(p, s[0]) then [p] + s
    else if p == s[0] then s
    else [s[0]] + Insert(p, s[1..])
  }

  /** `sorted(set(inputs), key=str)` */
  function SortedSet(inputs: seq<Path>): seq<Path> {
    if inputs == [] then [] else Insert(inputs[0], SortedSet(inputs[1..]))
  }

  lemma {:induction false} InsertKeepsAscending(p: Path, s: seq<Path>)
    requires Ascending(s)
    ensures Ascending(Insert(p, s))
    ensures forall x :: x in Insert(p, s) <==> x == p || x in s
    decreases |s|
  {
    if s == [] {
    } else if Less(p, s[0]) {
      forall j | 0 < j < |s|
        ensures Less(p, s[j])
      {
        LessIsTransitive(p, s[0], s[j]);
      }
    } else if p != s[0] {
      LessIsStrictTotal(p, s[0]);
      InsertKeepsAscending(p, s[1..]);
      var rest := Insert(p, s[1..]);
      forall j | 0 <= j < |rest|
        ensures Less(s[0], rest[j])
      {
        assert rest[j] in rest;
        if rest[j] != p {
          var k :| 0 <= k < |s[1..]| && s[1..][k] == rest[j];
          assert s[k + 1] == rest[j];
        }
      }
      assert s == [s[0]] + s[1..];
    }
  }

  lemma {:induction false} SortedSetIsAscending(inputs: seq<Path>)
    ensures Ascending(SortedSet(inputs))
    ensures forall x :: x in SortedSet(inputs) <==> x in inputs
    decreases |inputs|
  {
    if inputs != [] {
      SortedSetIsAscending(inputs[1..]);
      InsertKeepsAscending(inputs[0], SortedSet(inputs[1..]));
      assert inputs == [inputs[0]] + inputs[1..];
    }
  }

  /** A set of paths has only one ascending listing. */
  lemma {:induction false} AscendingIsUnique(s: seq<Path>, t: seq<Path>)
    requires Ascending(s) && Ascending(t)
    requires forall x :: x in s <==> x in t
    ensures s == t
    decreases |s|
  {
    assert t != [] ==> t[0] in t;
    if s != [] {
      assert s[0] in t && t != [];
      FirstIsLeast(s, t);
      FirstIsLeast(t, s);
      LessIsStrictTotal(s[0], t[0]);
      forall x
        ensures x in s[1..] <==> x in t[1..]
      {
        TailWithoutFirst(s, x);
        TailWithoutFirst(t, x);
      }
      AscendingIsUnique(s[1..], t[1..]);
      assert s == [s[0]] + s[1..] && t == [t[0]] + t[1..];
    }
  }

  lemma FirstIsLeast(s: seq<Path>, t: seq<Path>)
    requires Ascending(s) && s != [] && t != [] && t[0] in s
    ensures s[0] == t[0] || Less(s[0], t[0])
  {
  }

  lemma TailWithoutFirst(s: seq<Path>, x: Path)
    requires Ascending(s) && s != []
    ensures x in s[1..] <==> x in s && x != s[0]
  {
    forall i | 0 < i < |s|
      ensures s[i] != s[0]
    {
      LessIsStrictTotal(s[0], s[i]);
    }
    if x in s && x != s[0] {
      var i :| 0 <= i < |s| && s[i] == x;
      assert s[1..][i - 1] == x;
    }
  }

  /** The text that is digested: the release, then name and bytes of every input that is a file. */
  function DigestText(files: map<Path, string>, paths: seq<Path>): string {
    if paths == [] then RELEASE
    else
      var p := paths[|paths| - 1];
      DigestText(files, paths[..|paths| - 1]) + (if p in files then p + files[p] else "")
  }

  function FingerprintOf(files: map<Path, string>, inputs: seq<Path>, digest: string -> Fingerprint): Fingerprint {
    digest(DigestText(files, SortedSet(inputs)))
  }

  /** Neither the order nor repetitions of the inputs matter. */
  lemma FingerprintIgnoresOrder(files: map<Path, string>, a: seq<Path>, b: seq<Path>, digest: string -> Fingerprint)
    requires Elements(a) == Elements(b)
    ensures FingerprintOf(files, a, digest) == FingerprintOf(files, b, digest)
  {
    SortedSetIsAscending(a);
    SortedSetIsAscending(b);
    forall x
      ensures x in SortedSet(a) <==> x in SortedSet(b)
    {
      assert x in Elements(a) <==> x in Elements(b);
    }
    AscendingIsUnique(SortedSet(a), SortedSet(b));
  }

  /** The text begins with the release and holds the name and the bytes of every input that is a file. */
  lemma {:induction false} InputsAreDigested(files: map<Path, string>, paths: seq<Path>)
    ensures RELEASE <= DigestText(files, paths)
    ensures forall p :: p in paths && p in files ==>
              exists front, back :: DigestText(files, paths) == front + (p + files[p]) + back
    decreases |paths|
  {
    if paths != [] {
      var k := |paths| - 1;
      var q, before := paths[k], DigestText(files, paths[..k]);
      InputsAreDigested(files, paths[..k]);
      assert paths == paths[..k] + [q];
      var more := if q in files then q + files[q] else "";
      assert DigestText(files, paths) == before + more;
      forall p | p in paths && p in files
        ensures exists front, back :: before + more == front + (p + files[p]) + back
      {
        if p == q {
          assert before + more == before + (p + files[p]) + "";
        } else {
          var front, back :| before == front + (p + files[p]) + back;
          assert before + more == front + (p + files[p]) + (back + more);
        }
      }
    }
  }

  /** Editing one input always changes the text that is digested. */
  lemma EditChangesText(files: map<Path, string>, inputs: seq<Path>, p: Path, content: string)
    requires p in inputs && p in files && content != files[p]
    ensures DigestText(files[p := content], SortedSet(inputs)) != DigestText(files, SortedSet(inputs))
  {
    SortedSetIsAscending(inputs);
    EditChangesAscending(files, SortedSet(inputs), p, content);
  }

  lemma {:induction false} EditChangesAscending(files: map<Path, string>, paths: seq<Path>, p: Path, content: string)
    requires Ascending(paths) && p in files && content != files[p]
    ensures p in paths <==> DigestText(files[p := content], paths) != DigestText(files, paths)
    decreases |paths|
  {
    if paths != [] {
      var k := |paths| - 1;
      var q, edited := paths[k], files[p := content];
      assert paths == paths[..k] + [q];
      EditChangesAscending(files, paths[..k], p, content);
      var old', new' := DigestText(files, paths[..k]), DigestText(edited, paths[..k]);
      if q == p {
        LessIsStrictTotal(p, p);
        assert new' == old';
        assert (old' + (p + content))[|old'| + |p|..] == content;
        assert (old' + (p + files[p]))[|old'| + |p|..] == files[p];
      } else {
        SameEnding(old', new', if q in files then q + files[q] else "");
      }
    }
  }

  lemma SameEnding(a: string, b: string, ending: string)
    ensures a + ending == b + ending <==> a == b
  {
    if a + ending == b + ending {
      assert |a| == |b|;
      assert (a + ending)[..|a|] == a && (b + ending)[..|b|] == b;
    }
  }

  // ---- The cache directory under crashes ----

  /** A compiled artifact, with the fingerprint it was built under. */
  datatype Artifact = Artifact(id: string, builtUnder: Fingerprint)

  /** A marker that does not parse is torn and reads as no marker. */
  datatype Marker = Absent | Torn | Intact(target: Target, fingerprint: Fingerprint)

  datatype Phase =
    | Idle
    | Deleting(target: Target, fingerprint: Fingerprint)
    | Writing(target: Target, fingerprint: Fingerprint)
    | Ready(target: Target, fingerprint: Fingerprint)

  datatype Cache = Cache(marker: Marker, dirs: map<Target, set<Artifact>>, phase: Phase) {
    function Dir(t: Target): set<Artifact> {
      if t in dirs then dirs[t] else {}
    }

    predicate BuiltUnder(t: Target, f: Fingerprint) {
      forall a :: a in Dir(t) ==> a.builtUnder == f
    }

    /** An intact marker tells the truth about its target's directory, and a refresh that has
        returned left such a marker. */
    predicate Truthful() {
      && (marker.Intact? ==> BuiltUnder(marker.target, marker.fingerprint))
      && (phase.Ready? ==> marker == Intact(phase.target, phase.fingerprint))
    }

    /** Once a refresh has returned, everything in its target's directory was built under its fingerprint. */
    predicate Fresh() {
      phase.Ready? ==> BuiltUnder(phase.target, phase.fingerprint)
    }
  }

  const EMPTY_CACHE := Cache(Absent, map[], Idle)

  /** `Removed` ends the deletion; since errors are ignored it may leave survivors. `Removing` is
      a deletion still under way. */
  datatype Event =
    | Refresh(target: Target, fingerprint: Fingerprint)
    | Removing(survivors: set<Artifact>)
    | Removed(survivors: set<Artifact>)
    | Truncate
    | Commit
    | Compile(id: string)
    | Crash

  function Step(c: Cache, e: Event): Cache {
    match e
    case Refresh(t, f) =>
      if c.phase.Idle? || c.phase.Ready? then
        c.(phase := if c.marker == Intact(t, f) then Writing(t, f) else Deleting(t, f))
      else c
    case Removing(survivors) =>
      if c.phase.Deleting? then c.(dirs := c.dirs[c.phase.target := c.Dir(c.phase.target) * survivors]) else c
    case Removed(survivors) =>
      if c.phase.Deleting? then
        c.(dirs := c.dirs[c.phase.target := c.Dir(c.phase.target) * survivors],
           phase := Writing(c.phase.target, c.phase.fingerprint))
      else c
    case Truncate =>
      if c.phase.Writing? then c.(marker := Torn) else c
    case Commit =>
      if c.phase.Writing? then
        c.(marker := Intact(c.phase.target, c.phase.fingerprint),
           phase := Ready(c.phase.target, c.phase.fingerprint))
      else c
    case Compile(id) =>
      if c.phase.Ready? then
        c.(dirs := c.dirs[c.phase.target := c.Dir(c.phase.target) + {Artifact(id, c.phase.fingerprint)}])
      else c
    case Crash => c.(phase := Idle)
  }

  function Run(events: seq<Event>): Cache {
    if events == [] then EMPTY_CACHE else Step(Run(events[..|events| - 1]), events[|events| - 1])
  }

  /** The event ends a deletion and leaves an artifact of another fingerprint behind. */
  predicate LeavesStale(c: Cache, e: Event) {
    && e.Removed? && c.phase.Deleting?
    && exists a :: a in c.Dir(c.phase.target) && a in e.survivors && a.builtUnder != c.phase.fingerprint
  }

  /** The refresh that is writing its marker after these events has left a stale artifact. */
  predicate LeftStale(events: seq<Event>) {
    events != [] &&
    var before, e := events[..|events| - 1], events[|events| - 1];
    LeavesStale(Run(before), e) || (LeftStale(before) && Run(events).phase.Writing?)
  }

  /** Event k writes the marker of a refresh whose deletion left a stale artifact. */
  predicate CommitsOverStale(events: seq<Event>, k: nat)
    requires k < |events|
  {
    events[k].Commit? && LeftStale(events[..k])
  }

  ghost predicate NeverCommitsOverStale(events: seq<Event>) {
    forall k :: 0 <= k < |events| ==> !CommitsOverStale(events, k)
  }

  /** One step keeps the marker truthful exactly when it does not write a marker over a stale artifact. */
  lemma StepKeepsTruth(c: Cache, e: Event)
    requires c.Truthful()
    ensures Step(c, e).Truthful()
            <==> !(e.Commit? && c.phase.Writing? && !c.BuiltUnder(c.phase.target, c.phase.fingerprint))
  {
  }

  /** While a refresh is writing its marker, there is a stale artifact exactly if its deletion left one. */
  lemma {:induction false} StaleExactlySinceDeletion(events: seq<Event>)
    requires forall k :: 0 <= k <= |events| ==> Run(events[..k]).Truthful()
    ensures var c := Run(events);
            LeftStale(events) <==> c.phase.Writing? && !c.BuiltUnder(c.phase.target, c.phase.fingerprint)
  {
    if events != [] {
      var k := |events| - 1;
      forall i | 0 <= i <= k
        ensures Run(events[..k][..i]).Truthful()
      {
        assert events[..k][..i] == events[..i];
      }
      StaleExactlySinceDeletion(events[..k]);
      StaleStep(Run(events[..k]), events[k]);
    }
  }

  lemma StaleStep(c: Cache, e: Event)
    requires c.Truthful()
    ensures var c' := Step(c, e);
            c'.phase.Writing? ==>
              (c'.BuiltUnder(c'.phase.target, c'.phase.fingerprint)
               <==> !LeavesStale(c, e) && (c.phase.Writing? ==> c.BuiltUnder(c.phase.target, c.phase.fingerprint)))
    ensures LeavesStale(c, e) ==> Step(c, e).phase.Writing?
    ensures Step(c, e).phase.Writing? && c.phase.Writing? ==> !LeavesStale(c, e)
  {
  }

  lemma {:induction false} RunsAreTruthful(events: seq<Event>)
    requires NeverCommitsOverStale(events)
    ensures Run(events).Truthful()
  {
    if events != [] {
      var k := |events| - 1;
      forall i | 0 <= i <= k
        ensures Run(events[..k][..i]).Truthful()
      {
        PrefixNeverCommits(events, i);
        assert events[..k][..i] == events[..i];
        RunsAreTruthful(events[..i]);
      }
      assert events[..k][..k] == events[..k];
      StepKeepsTruth(Run(events[..k]), events[k]);
      if Run(events[..k]).phase.Writing? {
        StaleExactlySinceDeletion(events[..k]);
        assert !CommitsOverStale(events, k);
      }
    }
  }

  lemma PrefixNeverCommits(events: seq<Event>, n: nat)
    requires NeverCommitsOverStale(events) && n <= |events|
    ensures NeverCommitsOverStale(events[..n])
  {
    forall k | 0 <= k < n
      ensures !CommitsOverStale(events[..n], k)
    {
      assert events[..n][..k] == events[..k];
      assert !CommitsOverStale(events, k);
    }
  }

  /** Over any interleaving of refreshes, target switches, compilations and crashes: whenever a refresh has
      returned, everything in the directory of its target was built under its fingerprint, exactly if no
      marker is written by a refresh whose own deletion left a stale artifact. */
  lemma FreshExactly(events: seq<Event>)
    ensures (forall k :: 0 <= k <= |events| ==> Run(events[..k]).Fresh()) <==> NeverCommitsOverStale(events)
  {
    if NeverCommitsOverStale(events) {
      forall k | 0 <= k <= |events|
        ensures Run(events[..k]).Fresh()
      {
        PrefixNeverCommits(events, k);
        RunsAreTruthful(events[..k]);
      }
    } else {
      var k := FirstCommitOverStale(events);
      forall i | 0 <= i <= k
        ensures Run(events[..k][..i]).Truthful()
      {
        PrefixNeverCommits(events[..k], i);
        RunsAreTruthful(events[..k][..i]);
      }
      assert events[..k][..k] == events[..k];
      StaleExactlySinceDeletion(events[..k]);
      assert events[..k + 1] == events[..k] + [events[k]];
      RunTail(events[..k], events[k], events[..k + 1]);
      assert !Run(events[..k + 1]).Fresh();
    }
  }

  /** The first event that writes a marker over a stale artifact. */
  lemma {:induction false} FirstCommitOverStale(events: seq<Event>) returns (k: nat)
    requires !NeverCommitsOverStale(events)
    ensures k < |events| && CommitsOverStale(events, k) && NeverCommitsOverStale(events[..k])
  {
    k :| 0 <= k < |events| && CommitsOverStale(events, k);
    if !NeverCommitsOverStale(events[..k]) {
      var i := FirstCommitOverStale(events[..k]);
      assert events[..k][..i] == events[..i];
      assert CommitsOverStale(events, i);
      k := i;
    }
  }

  // ---- What the cache keeps ----

  /** The event starts a refresh of this target that finds a marker for another target or fingerprint, or none. */
  predicate FindsChange(c: Cache, e: Event, t: Target) {
    && e.Refresh? && e.target == t && (c.phase.Idle? || c.phase.Ready?)
    && c.marker != Intact(t, e.fingerprint)
  }

  /** One step loses an artifact only to a deletion of its target that is under way, and a deletion gets
      under way only by a refresh that finds a change. */
  lemma StepLosesByDeletion(c: Cache, e: Event, t: Target, a: Artifact)
    ensures a in c.Dir(t) && a !in Step(c, e).Dir(t) ==> c.phase.Deleting? && c.phase.target == t
    ensures Step(c, e).phase.Deleting? && Step(c, e).phase.target == t ==>
              (c.phase.Deleting? && c.phase.target == t) || FindsChange(c, e, t)
  {
  }

  /** A compiled artifact stays until a refresh of its own target finds another target, another fingerprint
      or no intact marker. */
  lemma {:induction false} ArtifactStays(events: seq<Event>, i: nat, t: Target, a: Artifact)
    requires i <= |events|
    requires a in Run(events[..i]).Dir(t) && !(Run(events[..i]).phase.Deleting? && Run(events[..i]).phase.target == t)
    requires forall k :: i <= k < |events| ==> !FindsChange(Run(events[..k]), events[k], t)
    ensures a in Run(events).Dir(t) && !(Run(events).phase.Deleting? && Run(events).phase.target == t)
    decreases |events|
  {
    assert events[..|events|] == events;
    if i < |events| {
      var k := |events| - 1;
      forall j | i <= j < k
        ensures !FindsChange(Run(events[..k][..j]), events[..k][j], t)
      {
        assert events[..k][..j] == events[..j];
      }
      assert events[..k][..i] == events[..i];
      ArtifactStays(events[..k], i, t, a);
      hide Step, FindsChange, Cache.Dir;
      StepLosesByDeletion(Run(events[..k]), events[k], t, a);
    }
  }

  /** All deletions being complete is enough. */
  lemma CompleteDeletionsAreEnough(events: seq<Event>)
    requires forall e :: e in events && e.Removed? ==> e.survivors == {}
    ensures NeverCommitsOverStale(events)
  {
    forall k | 0 <= k < |events|
      ensures !LeftStale(events[..k])
    {
      CompleteDeletionLeavesNothing(events, k);
    }
  }

  lemma {:induction false} CompleteDeletionLeavesNothing(events: seq<Event>, k: nat)
    requires k <= |events| && forall e :: e in events && e.Removed? ==> e.survivors == {}
    ensures !LeftStale(events[..k])
  {
    if k > 0 {
      assert events[..k][..k - 1] == events[..k - 1] && events[k - 1] in events;
      CompleteDeletionLeavesNothing(events, k - 1);
    }
  }

  /** An ignored deletion error makes a stale artifact pass for a fresh one. */
  lemma IgnoredErrorServesStale()
    ensures var stale := Artifact("x", "f");
            var events := [Refresh("t", "f"), Removed({}), Truncate, Commit, Compile("x"),
                           Refresh("t", "g"), Removed({stale}), Truncate, Commit];
            Run(events).phase == Ready("t", "g") && stale in Run(events).Dir("t")
  {
    var stale := Artifact("x", "f");
    var events := [Refresh("t", "f"), Removed({}), Truncate, Commit, Compile("x"),
                   Refresh("t", "g"), Removed({stale}), Truncate, Commit];
    RunTail(events[..8], Commit, events);
    RunTail(events[..7], Truncate, events[..8]);
    RunTail(events[..6], Removed({stale}), events[..7]);
    RunTail(events[..5], Refresh("t", "g"), events[..6]);
    RunTail(events[..4], Compile("x"), events[..5]);
    RunTail(events[..3], Commit, events[..4]);
    RunTail(events[..2], Truncate, events[..3]);
    RunTail(events[..1], Removed({}), events[..2]);
    RunTail([], Refresh("t", "f"), events[..1]);
  }

  lemma RunTail(before: seq<Event>, e: Event, events: seq<Event>)
    requires events == before + [e]
    ensures Run(events) == Step(Run(before), e)
  {
    assert events[..|events| - 1] == before;
  }

  // ---- The function itself ----

  class RustTargetCache {
    var marker: Marker
    var dirs: map<Target, set<Artifact>>

    constructor ()
      ensures State(Idle) == EMPTY_CACHE
    {
      marker, dirs := Absent, map[];
    }

    function State(phase: Phase): Cache
      reads this
    {
      Cache(marker, dirs, phase)
    }

    /** `survivors` is what an erroneous deletion would leave. */
    method Refresh(target: Target, inputs: seq<Path>, files: map<Path, string>, digest: string -> Fingerprint,
                   survivors: set<Artifact>)
        returns (changed: bool)
      modifies this
      ensures var f := FingerprintOf(files, inputs, digest);
              && changed == (old(marker) != Intact(target, f))
              && State(Ready(target, f)) == Refreshed(old(State(Idle)), target, f, survivors)
      ensures !changed ==> dirs == old(dirs)
      ensures changed ==>
                && target in dirs
                && dirs[target] == (if target in old(dirs) then old(dirs)[target] else {}) * survivors
      ensures forall u :: u != target ==> (u in dirs <==> u in old(dirs)) && (u in dirs ==> dirs[u] == old(dirs)[u])
    {
      var paths := SortedSet(inputs);
      var text := RELEASE;
      for i := 0 to |paths|
        invariant text == DigestText(files, paths[..i])
      {
        assert paths[..i + 1][..i] == paths[..i];
        if paths[i] !in files {
          continue;
        }
        text := text + (paths[i] + files[paths[i]]);
      }
      assert paths[..|paths|] == paths;
      var fingerprint := digest(text);
      var previous: Option<(Target, Fingerprint)> := None;
      if marker.Intact? {
        previous := Some((marker.target, marker.fingerprint));
      }
      changed := previous.None? || previous.value.1 != fingerprint || previous.value.0 != target;
      if changed {
        dirs := dirs[target := (if target in dirs then dirs[target] else {}) * survivors];
      }
      marker := Torn;
      marker := Intact(target, fingerprint);
    }
  }

  /** An undisturbed refresh, as the steps a crash could come between. */
  function Refreshed(c: Cache, t: Target, f: Fingerprint, survivors: set<Artifact>): Cache {
    Step(Step(Step(Step(c, Refresh(t, f)), Removed(survivors)), Truncate), Commit)
  }
}
