/** The pool refresh of `build_repository` in scripts/repository.py. */
module Publish {
  import opened Wrappers
  import Catalog
  import Acceptance

  type Name = string
  type Bytes = string

  datatype Channel = StableChannel | CandidateChannel

  datatype PublishError = MissingArtifact(file: string) | UnreadableArtifact(file: string)

  const ARCHITECTURE := "wasm32-wasix"

  function ArtifactName(port: Catalog.Port, name: Name): string {
    name + "_" + port.DebVersion() + "_" + ARCHITECTURE + ".deb"
  }

  predicate IsDeb(file: string) {
    |file| >= 4 && file[|file| - 4..] == ".deb"
  }

  lemma ArtifactIsDeb(port: Catalog.Port, name: Name)
    ensures IsDeb(ArtifactName(port, name))
  {
    var file := ArtifactName(port, name);
    var front := name + "_" + port.DebVersion() + "_" + ARCHITECTURE;
    assert file == front + ".deb" && |file| - 4 == |front|;
  }

  /** The distribution directory and the two functions the script computes on its files. */
  datatype Dist = Dist(files: map<string, Bytes>, sha256: Bytes -> string, readable: Bytes -> bool) {
    predicate Current(port: Catalog.Port, name: Name) {
      && ArtifactName(port, name) in files
      && readable(files[ArtifactName(port, name)])
    }
  }

  /** Every visible port has a current, readable artifact. */
  ghost predicate AllCurrent(ports: Catalog.Ports, dist: Dist) {
    forall n :: n in ports && ports[n].UserVisible() ==> dist.Current(ports[n], n)
  }

  /** The stable channel takes a package whose exact bytes are bound and fully checked. */
  predicate Approved(channel: Channel, port: Catalog.Port, name: Name, dist: Dist, store: Acceptance.Store)
    requires dist.Current(port, name)
  {
    channel.StableChannel? ==>
      var state := Acceptance.ReadState(store, name, port.DebVersion());
      && Acceptance.IsStable(state)
      && state.artifact == Some(dist.sha256(dist.files[ArtifactName(port, name)]))
  }

  ghost predicate Publishable(channel: Channel, ports: Catalog.Ports, dist: Dist, store: Acceptance.Store, n: Name) {
    && n in ports && ports[n].UserVisible()
    && dist.Current(ports[n], n)
    && Approved(channel, ports[n], n, dist, store)
  }

  /** The pool holds the publishable artifacts, byte for byte, and no other package file;
      files that are not packages are as before. */
  ghost predicate Refreshed(channel: Channel, ports: Catalog.Ports, dist: Dist, store: Acceptance.Store,
                            before: map<string, Bytes>, pool: map<string, Bytes>)
  {
    && (forall f :: IsDeb(f) ==>
          (f in pool <==> exists n :: Publishable(channel, ports, dist, store, n) && f == ArtifactName(ports[n], n)))
    && (forall f :: IsDeb(f) && f in pool ==> f in dist.files && pool[f] == dist.files[f])
    && (forall f :: !IsDeb(f) ==> (f in pool <==> f in before) && (f in before && f in pool ==> pool[f] == before[f]))
  }

  /** The error names the artifact of a visible port and says why it is not current. */
  ghost predicate Explains(ports: Catalog.Ports, dist: Dist, error: PublishError) {
    exists n :: n in ports && ports[n].UserVisible() && error.file == ArtifactName(ports[n], n) &&
      match error
      case MissingArtifact(file) => file !in dist.files
      case UnreadableArtifact(file) => file in dist.files && !dist.readable(dist.files[file])
  }

  class Repository {
    var pool: map<string, Bytes>

    constructor (pool: map<string, Bytes>)
      ensures this.pool == pool
    {
      this.pool := pool;
    }

    method BuildRepository(channel: Channel, ports: Catalog.Ports, order: seq<Name>, dist: Dist,
                           store: Acceptance.Store)
        returns (r: Outcome<PublishError>)
      requires Catalog.Enumerates(order, ports)
      modifies this
      ensures r.Pass? <==> AllCurrent(ports, dist)
      ensures r.Pass? ==> Refreshed(channel, ports, dist, store, old(pool), pool)
      ensures r.Fail? ==> pool == old(pool) && Explains(ports, dist, r.error)
    {
      var selected := [];
      Catalog.OrderCovers(ports, order);
      for i := 0 to |order|
        invariant pool == old(pool)
        invariant forall n :: n in selected <==> n in order[..i] && ports[n].UserVisible()
        invariant forall n :: n in selected ==> n in ports && dist.Current(ports[n], n)
      {
        var name := order[i];
        assert order[..i + 1] == order[..i] + [name];
        if ports[name].UserVisible() {
          var file := ArtifactName(ports[name], name);
          if file !in dist.files {
            return Fail(MissingArtifact(file));
          }
          if !dist.readable(dist.files[file]) {
            return Fail(UnreadableArtifact(file));
          }
          selected := selected + [name];
        }
      }
      assert order[..|order|] == order;
      UnlinkStale();
      Copy(channel, ports, selected, dist, store);
      forall n
        ensures Publishable(channel, ports, dist, store, n) <==>
                  n in selected && n in ports && dist.Current(ports[n], n) && Approved(channel, ports[n], n, dist, store)
      {
      }
      return Pass;
    }

    /** Removes every package file, one at a time, in any order. */
    method UnlinkStale()
      modifies this
      ensures forall f :: f in pool <==> f in old(pool) && !IsDeb(f)
      ensures forall f :: f in pool ==> pool[f] == old(pool)[f]
    {
      var stale := set f | f in pool && IsDeb(f);
      while stale != {}
        invariant forall f :: f in stale ==> IsDeb(f)
        invariant forall f :: f in pool <==> f in old(pool) && (IsDeb(f) ==> f in stale)
        invariant forall f :: f in pool ==> pool[f] == old(pool)[f]
        decreases stale
      {
        var f :| f in stale;
        pool := pool - {f};
        stale := stale - {f};
      }
    }

    /** Copies the approved artifacts; a target that already has the same digest is left alone. */
    method Copy(channel: Channel, ports: Catalog.Ports, selected: seq<Name>, dist: Dist, store: Acceptance.Store)
      requires forall n :: n in selected ==> n in ports && dist.Current(ports[n], n)
      requires forall f :: f in pool ==> !IsDeb(f)
      modifies this
      ensures forall f :: IsDeb(f) ==>
                (f in pool <==> exists n :: n in selected && Approved(channel, ports[n], n, dist, store)
                                            && f == ArtifactName(ports[n], n))
      ensures forall f :: IsDeb(f) && f in pool ==> f in dist.files && pool[f] == dist.files[f]
      ensures forall f :: !IsDeb(f) ==> (f in pool <==> f in old(pool))
      ensures forall f :: !IsDeb(f) && f in pool ==> pool[f] == old(pool)[f]
    {
      for i := 0 to |selected|
        invariant forall f :: IsDeb(f) ==>
                    (f in pool <==> exists k :: 0 <= k < i && Approved(channel, ports[selected[k]], selected[k], dist, store)
                                                && f == ArtifactName(ports[selected[k]], selected[k]))
        invariant forall f :: IsDeb(f) && f in pool ==> f in dist.files && pool[f] == dist.files[f]
        invariant forall f :: !IsDeb(f) ==> (f in pool <==> f in old(pool))
        invariant forall f :: !IsDeb(f) && f in pool ==> pool[f] == old(pool)[f]
      {
        var name := selected[i];
        var port := ports[name];
        var file := ArtifactName(port, name);
        ArtifactIsDeb(port, name);
        if channel.StableChannel? {
          var state := Acceptance.ReadState(store, name, port.DebVersion());
          if !Acceptance.IsStable(state) || state.artifact != Some(dist.sha256(dist.files[file])) {
            continue;
          }
        }
        if file !in pool || dist.sha256(pool[file]) != dist.sha256(dist.files[file]) {
          pool := pool[file := dist.files[file]];
        }
      }
    }
  }

  /** The stored record alone decides approval exactly as the history of commands does. */
  lemma ApprovedByHistory(history: seq<Acceptance.Command>, port: Catalog.Port, name: Name, dist: Dist)
    requires dist.Current(port, name)
    ensures var digest := dist.sha256(dist.files[ArtifactName(port, name)]);
            Approved(StableChannel, port, name, dist, Acceptance.Run(history)) <==>
              && digest != ""
              && Acceptance.BoundTo(history, name) == Some(Acceptance.Binding(port.DebVersion(), digest))
              && forall k :: Acceptance.CheckedSinceBound(history, name, k)
  {
    Acceptance.RecordsReflectHistory(history, name);
    Acceptance.StableExactlyWhenFullyChecked(history, name);
  }

  /** After any acceptance history, a refreshed stable pool holds exactly the artifacts whose very bytes
      are bound at the current version with every check accepted since. */
  lemma StablePoolIsExactlyTheAccepted(history: seq<Acceptance.Command>, ports: Catalog.Ports, dist: Dist,
                                       before: map<string, Bytes>, pool: map<string, Bytes>, n: Name)
    requires n in ports && ports[n].UserVisible() && AllCurrent(ports, dist)
    requires Refreshed(StableChannel, ports, dist, Acceptance.Run(history), before, pool)
    requires forall m :: m in ports ==> Catalog.PackageName(m)
    ensures var file := ArtifactName(ports[n], n);
            file in pool <==>
              && dist.sha256(dist.files[file]) != ""
              && Acceptance.BoundTo(history, n)
                 == Some(Acceptance.Binding(ports[n].DebVersion(), dist.sha256(dist.files[file])))
              && forall k :: Acceptance.CheckedSinceBound(history, n, k)
    ensures ArtifactName(ports[n], n) in pool ==>
              pool[ArtifactName(ports[n], n)] == dist.files[ArtifactName(ports[n], n)]
  {
    var file := ArtifactName(ports[n], n);
    ArtifactIsDeb(ports[n], n);
    assert dist.Current(ports[n], n);
    ApprovedByHistory(history, ports[n], n, dist);
    forall m | m in ports && ArtifactName(ports[m], m) == file
      ensures m == n
    {
      ArtifactsAreDistinct(ports[m], m, ports[n], n);
    }
    if Approved(StableChannel, ports[n], n, dist, Acceptance.Run(history)) {
      assert Publishable(StableChannel, ports, dist, Acceptance.Run(history), n);
    }
  }

  /** Whatever acceptance says, a refreshed candidate pool holds exactly the current artifacts of all
      visible ports, byte for byte. */
  lemma CandidatePoolIsEverything(store: Acceptance.Store, ports: Catalog.Ports, dist: Dist,
                                  before: map<string, Bytes>, pool: map<string, Bytes>, f: string)
    requires Refreshed(CandidateChannel, ports, dist, store, before, pool)
    requires AllCurrent(ports, dist) && IsDeb(f)
    ensures f in pool <==> exists n :: n in ports && ports[n].UserVisible() && f == ArtifactName(ports[n], n)
    ensures f in pool ==> f in dist.files && pool[f] == dist.files[f]
  {
    forall n | n in ports && ports[n].UserVisible() && f == ArtifactName(ports[n], n)
      ensures Publishable(CandidateChannel, ports, dist, store, n)
    {
      assert dist.Current(ports[n], n);
    }
  }

  /** Package names cannot contain the separator, so two ports never share an artifact file. */
  lemma ArtifactsAreDistinct(a: Catalog.Port, m: Name, b: Catalog.Port, n: Name)
    requires Catalog.PackageName(m) && Catalog.PackageName(n)
    requires ArtifactName(a, m) == ArtifactName(b, n)
    ensures m == n && a.DebVersion() == b.DebVersion()
  {
    var file := ArtifactName(a, m);
    assert file[..|m|] == m && file[..|n|] == n;
    assert file[|m|] == '_' && file[|n|] == '_';
    var ending := "_" + ARCHITECTURE + ".deb";
    assert file == m + "_" + a.DebVersion() + ending && file == n + "_" + b.DebVersion() + ending;
    assert file[|m| + 1..|file| - |ending|] == a.DebVersion();
    assert file[|n| + 1..|file| - |ending|] == b.DebVersion();
  }
}
