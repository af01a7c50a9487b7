/** `materialize_package_symlinks` of scripts/ports.py: replacing every symbolic
    link of a package tree by a copy of the file or directory it leads to. */
module Symlinks {
  import opened Graphs
  import opened Wrappers
  import opened SymlinkTrees
  import opened SymlinkGrafts
  import opened SymlinkCopies

  datatype SymlinkError =
    | EscapesRoot(link: Path)
    | NoTarget(link: Path)
    | CopyFailed(link: Path)

  /** Every link once, in any order. */
  ghost predicate LinksListed(nodes: Nodes, links: seq<Path>) {
    NoRepeats(links) && forall p :: p in links <==> IsLink(nodes, p)
  }

  /** What the code finds at the end of a link. */
  function Found(nodes: Nodes, link: Path): Resolution
    requires IsLink(nodes, link)
  {
    Resolve(nodes, Base(nodes, link), nodes[link].target, {})
  }

  predicate FindsNode(nodes: Nodes, link: Path)
    requires IsLink(nodes, link)
  {
    Found(nodes, link).At? && Found(nodes, link).path in nodes
  }

  /** The copy of a file or of a directory. The link is gone before the copy starts, so a copy of the
      directory it stood in does not meet it. */
  function CopyOf(nodes: Nodes, link: Path, source: Path, limit: nat): Option<Nodes>
    requires source in nodes
  {
    if nodes[source].Directory? then CopyTree(nodes, source, if source == Parent(link) then {link} else {}, limit)
    else Some(map[[] := nodes[source]])
  }

  /** One pass of the loop. */
  function Replacement(nodes: Nodes, link: Path, limit: nat): Result<Nodes, SymlinkError>
    requires IsLink(nodes, link)
  {
    var found := Found(nodes, link);
    if !found.At? then Err(EscapesRoot(link))
    else if found.path !in nodes then Err(NoTarget(link))
    else
      var copy := CopyOf(nodes, link, found.path, limit);
      if copy.None? then Err(CopyFailed(link)) else Ok(Graft(nodes, link, copy.value))
  }

  /** The whole loop: the tree before the first pass that fails, or the tree after all of them. */
  ghost function Materialized(nodes: Nodes, links: seq<Path>, limit: nat): (Nodes, Outcome<SymlinkError>)
    requires WellFormed(nodes) && LinksListed(nodes, links)
    decreases |links|
  {
    if links == [] then (nodes, Pass)
    else
      var step := Replacement(nodes, links[0], limit);
      if step.Err? then (nodes, Fail(step.error))
      else
        ReplacementIsTree(nodes, links[0], limit);
        OneLinkFewer(nodes, step.value, links);
        Materialized(step.value, links[1..], limit)
  }

  /** All that is not a link stands as before. */
  ghost predicate Keeps(before: Nodes, after: Nodes) {
    forall p :: p in before && !before[p].Link? ==> p in after && after[p] == before[p]
  }

  /** Every link leads somewhere, none to the directory it stands in, and no target steps up behind
      a link to a directory. */
  ghost predicate Wholesome(nodes: Nodes) {
    NoDanglingLinks(nodes) && NoOwnParentLinks(nodes) && LinksClimbInPlace(nodes)
  }

  class PackageRoot {
    var nodes: Nodes

    constructor (nodes: Nodes)
      ensures this.nodes == nodes
    {
      this.nodes := nodes;
    }

    /** `limit` bounds the nesting of copied directories, as the interpreter and the file system do. */
    method MaterializePackageSymlinks(links: seq<Path>, limit: nat) returns (r: Outcome<SymlinkError>)
      requires WellFormed(nodes) && LinksListed(nodes, links)
      modifies this
      ensures r == Materialized(old(nodes), links, limit).1
      ensures r.Pass? || !r.error.CopyFailed? ==> nodes == Materialized(old(nodes), links, limit).0
      ensures r.Pass? ==> forall p :: !IsLink(nodes, p)
      ensures r.Pass? || !r.error.CopyFailed? ==> Keeps(old(nodes), nodes)
      ensures Wholesome(old(nodes)) && (r.Pass? || !r.error.CopyFailed?) ==> SameReads(old(nodes), nodes)
    {
      MaterializedKeeps(nodes, links, limit);
      if Wholesome(nodes) {
        WholesomeTreesKeepReads(nodes, links, limit);
      }
      hide *;
      ghost var all := Materialized(nodes, links, limit);
      assert links[0..] == links;
      for i := 0 to |links|
        invariant WellFormed(nodes) && LinksListed(nodes, links[i..])
        invariant all == Materialized(nodes, links[i..], limit)
      {
        assert links[i..][0] == links[i] && links[i..][1..] == links[i + 1..];
        MaterializedStep(nodes, links[i..], limit);
        r := MaterializeLink(links[i], limit);
        if r.Fail? {
          return;
        }
      }
      NothingToMaterialize(nodes, links[|links|..], limit);
      return Pass;
    }

    /** One pass of the loop. */
    method MaterializeLink(link: Path, limit: nat) returns (r: Outcome<SymlinkError>)
      requires WellFormed(nodes) && IsLink(nodes, link)
      modifies this
      ensures r.Pass? <==> Replacement(old(nodes), link, limit).Ok?
      ensures r.Pass? ==> nodes == Replacement(old(nodes), link, limit).value
      ensures r.Fail? ==> r.error == Replacement(old(nodes), link, limit).error
      ensures r.Fail? && !r.error.CopyFailed? ==> nodes == old(nodes)
    {
      var target := nodes[link].target;
      var resolved := Resolve(nodes, Base(nodes, link), target, {});
      if !resolved.At? {
        return Fail(EscapesRoot(link));
      }
      var source := resolved.path;
      if source !in nodes {
        return Fail(NoTarget(link));
      }
      if nodes[source].Directory? {
        var hidden := if source == Parent(link) then {link} else {};
        var copied := CopyTree(nodes, source, hidden, limit);
        if copied.None? {
          nodes := nodes - {link};
          return Fail(CopyFailed(link));
        }
        nodes := Graft(nodes, link, copied.value);
      } else {
        FileGraft(nodes, link, nodes[source]);
        nodes := nodes[link := nodes[source]];
      }
      return Pass;
    }
  }

  /** When a pass goes through, and why it does not. */
  lemma PassesExactly(nodes: Nodes, link: Path, limit: nat)
    requires WellFormed(nodes) && IsLink(nodes, link)
    ensures var r := Replacement(nodes, link, limit);
            && (r.Ok? <==> FindsNode(nodes, link) && CopyOf(nodes, link, Found(nodes, link).path, limit).Some?)
            && (r == Err(EscapesRoot(link)) <==> !Found(nodes, link).At?)
            && (r == Err(NoTarget(link)) <==> Found(nodes, link).At? && Found(nodes, link).path !in nodes)
    ensures FindsNode(nodes, link) ==> !IsLink(nodes, Found(nodes, link).path)
    ensures FindsNode(nodes, link) && nodes[Found(nodes, link).path].File? ==> Replacement(nodes, link, limit).Ok?
  {
    hide Resolve, CopyTree, Graft;
    if FindsNode(nodes, link) {
      FoundIsNoLink(nodes, link);
    }
  }

  // ---- A pass keeps the tree a tree ----

  /** No link on the way to it. */
  ghost predicate ClearOfLinks(nodes: Nodes, p: Path) {
    forall i :: 0 <= i <= |p| ==> !IsLink(nodes, p[..i])
  }

  lemma {:induction false} ResolutionIsClear(nodes: Nodes, at: Path, components: seq<string>, active: set<Path>)
    requires ClearOfLinks(nodes, at)
    ensures var r := Resolve(nodes, at, components, active); r.At? ==> ClearOfLinks(nodes, r.path)
    decreases nodes.Keys - active, |components|
  {
    if components != [] {
      var next, rest := at + [components[0]], components[1..];
      if components[0] == UP {
        if at != [] {
          forall i | 0 <= i <= |Parent(at)|
            ensures !IsLink(nodes, Parent(at)[..i])
          {
            assert Parent(at)[..i] == at[..i];
          }
          ResolutionIsClear(nodes, Parent(at), rest, active);
        }
      } else if !IsLink(nodes, next) {
        forall i | 0 <= i <= |next|
          ensures !IsLink(nodes, next[..i])
        {
          assert next[..i] == if i <= |at| then at[..i] else next;
        }
        ResolutionIsClear(nodes, next, rest, active);
      } else if !nodes[next].absolute && next !in active {
        assert next in nodes.Keys - active && next !in nodes.Keys - (active + {next});
        ResolutionIsClear(nodes, at, nodes[next].target, active + {next});
        var entered := Resolve(nodes, at, nodes[next].target, active + {next});
        if entered.At? {
          ResolutionIsClear(nodes, entered.path, rest, active);
        }
      }
    }
  }

  lemma DirectoryIsClear(nodes: Nodes, p: Path)
    requires DownTo(nodes, p)
    ensures ClearOfLinks(nodes, p)
  {
  }

  lemma FoundIsNoLink(nodes: Nodes, link: Path)
    requires WellFormed(nodes) && IsLink(nodes, link) && FindsNode(nodes, link)
    ensures !IsLink(nodes, Found(nodes, link).path)
  {
    hide Resolve, WellFormed, DownTo;
    OwnNameIsNotUp(nodes, link);
    RootIsDirectory(nodes);
    DirectoryIsDownTo(nodes, Base(nodes, link));
    DirectoryIsClear(nodes, Base(nodes, link));
    ResolutionIsClear(nodes, Base(nodes, link), nodes[link].target, {});
    var source := Found(nodes, link).path;
    assert source[..|source|] == source;
  }

  lemma CopyOfIsTree(nodes: Nodes, link: Path, limit: nat)
    requires WellFormed(nodes) && IsLink(nodes, link) && FindsNode(nodes, link)
    requires CopyOf(nodes, link, Found(nodes, link).path, limit).Some?
    ensures TreeShaped(CopyOf(nodes, link, Found(nodes, link).path, limit).value)
  {
    FoundIsNoLink(nodes, link);
    hide Resolve, WellFormed, CopyTree;
    var source := Found(nodes, link).path;
    if nodes[source].Directory? {
      CopyIsTree(nodes, source, if source == Parent(link) then {link} else {}, limit);
    }
  }

  lemma ReplacementIsTree(nodes: Nodes, link: Path, limit: nat)
    requires WellFormed(nodes) && IsLink(nodes, link)
    ensures var r := Replacement(nodes, link, limit);
            r.Ok? ==>
              && WellFormed(r.value) && Keeps(nodes, r.value)
              && forall p :: IsLink(r.value, p) <==> IsLink(nodes, p) && p != link
  {
    hide WellFormed, Resolve, CopyOf, Graft, TreeShaped;
    if Replacement(nodes, link, limit).Ok? {
      var copy := CopyOf(nodes, link, Found(nodes, link).path, limit).value;
      CopyOfIsTree(nodes, link, limit);
      GraftIsWellFormed(nodes, link, copy);
      GraftedLinks(nodes, link, copy);
      GraftLookup(nodes, link, copy);
    }
  }

  lemma OneLinkFewer(before: Nodes, after: Nodes, links: seq<Path>)
    requires links != [] && LinksListed(before, links)
    requires forall p :: IsLink(after, p) <==> IsLink(before, p) && p != links[0]
    ensures LinksListed(after, links[1..])
  {
    assert links == [links[0]] + links[1..];
    forall p
      ensures p in links[1..] <==> IsLink(after, p)
    {
      assert p in links <==> IsLink(before, p);
    }
  }

  lemma FileGraft(nodes: Nodes, link: Path, file: Node)
    requires WellFormed(nodes) && IsLink(nodes, link)
    ensures Graft(nodes, link, map[[] := file]) == nodes[link := file]
  {
    hide WellFormed;
    var copy := map[[] := file];
    GraftLookup(nodes, link, copy);
    var after := Graft(nodes, link, copy);
    assert link + [] == link;
    forall p
      ensures p in after <==> p in nodes[link := file]
      ensures p in after ==> after[p] == nodes[link := file][p]
    {
      if link <= p {
        assert p == link + p[|link|..];
        if p != link {
          NothingBelowLink(nodes, link, p[|link|..]);
        }
      }
    }
  }

  lemma MaterializedStep(nodes: Nodes, links: seq<Path>, limit: nat)
    requires WellFormed(nodes) && LinksListed(nodes, links) && links != []
    ensures IsLink(nodes, links[0])
    ensures var step := Replacement(nodes, links[0], limit);
            if step.Err? then Materialized(nodes, links, limit) == (nodes, Fail(step.error))
            else
              && WellFormed(step.value) && LinksListed(step.value, links[1..])
              && Materialized(nodes, links, limit) == Materialized(step.value, links[1..], limit)
  {
    hide WellFormed, Replacement;
    assert links[0] in links;
    ReplacementIsTree(nodes, links[0], limit);
    if Replacement(nodes, links[0], limit).Ok? {
      OneLinkFewer(nodes, Replacement(nodes, links[0], limit).value, links);
    }
  }

  lemma NothingToMaterialize(nodes: Nodes, links: seq<Path>, limit: nat)
    requires WellFormed(nodes) && LinksListed(nodes, links) && links == []
    ensures Materialized(nodes, links, limit) == (nodes, Pass)
  {
  }

  /** Success leaves no link, and nothing but links ever changes. */
  lemma {:induction false} MaterializedKeeps(nodes: Nodes, links: seq<Path>, limit: nat)
    requires WellFormed(nodes) && LinksListed(nodes, links)
    ensures var (after, r) := Materialized(nodes, links, limit);
            && WellFormed(after) && Keeps(nodes, after)
            && (r.Pass? ==> forall p :: !IsLink(after, p))
    decreases |links|
  {
    hide WellFormed, Replacement;
    if links != [] {
      var step := Replacement(nodes, links[0], limit);
      if step.Ok? {
        ReplacementIsTree(nodes, links[0], limit);
        OneLinkFewer(nodes, step.value, links);
        MaterializedKeeps(step.value, links[1..], limit);
      }
    }
  }

  // ---- When the loop is right ----

  /** A link that leads somewhere is replaced by a copy of what it leads to. */
  lemma FollowedLinkIsGrafted(nodes: Nodes, link: Path, limit: nat)
    requires WellFormed(nodes) && IsLink(nodes, link) && Followed(nodes, link)
    requires Replacement(nodes, link, limit).Ok?
    ensures LinkLeadsTo(nodes, link, Found(nodes, link).path)
  {
    hide WellFormed, Resolve, CopyOf, Graft, LeadsTo;
    var x :| LeadsTo(nodes, Base(nodes, link), nodes[link].target, x);
    ResolvesToMeaning(nodes, Base(nodes, link), nodes[link].target, x);
  }

  /** A pass over a wholesome tree grafts a copy of what the link leads to. */
  lemma WholesomeGraft(nodes: Nodes, link: Path, limit: nat) returns (source: Path, copy: Nodes)
    requires WellFormed(nodes) && IsLink(nodes, link) && Wholesome(nodes)
    requires Replacement(nodes, link, limit).Ok?
    ensures GraftsCopy(nodes, link, source, copy) && TreeShaped(copy)
    ensures Replacement(nodes, link, limit).value == Graft(nodes, link, copy)
  {
    hide WellFormed, Resolve, Graft, LeadsTo, CopyTree, TreeShaped, ClimbsInPlace, IsCopy;
    FollowedLinkIsGrafted(nodes, link, limit);
    source := Found(nodes, link).path;
    copy := CopyOf(nodes, link, source, limit).value;
    FoundIsNoLink(nodes, link);
    CopyOfIsTree(nodes, link, limit);
    if nodes[source].Directory? {
      assert source != Parent(link);
      AllFollowedBelow(nodes, source, {});
      TreeIsCopied(nodes, source, limit);
    } else {
      FileIsItsCopy(nodes, source);
    }
  }

  lemma WholesomeStep(nodes: Nodes, link: Path, limit: nat)
    requires WellFormed(nodes) && IsLink(nodes, link) && Wholesome(nodes)
    requires Replacement(nodes, link, limit).Ok?
    ensures var after := Replacement(nodes, link, limit).value; Wholesome(after) && SameReads(nodes, after)
  {
    var source, copy := WholesomeGraft(nodes, link, limit);
    hide WellFormed, Graft, GraftsCopy, TreeShaped, SameReads, Replacement, NoDanglingLinks, NoOwnParentLinks,
         LinksClimbInPlace;
    GraftKeepsReads(nodes, link, source, copy);
    GraftKeepsLinks(nodes, link, source, copy);
  }

  lemma AllFollowedBelow(nodes: Nodes, at: Path, hidden: set<Path>)
    requires NoDanglingLinks(nodes)
    ensures FollowedBelow(nodes, at, hidden)
  {
    hide LeadsTo, Followed;
  }

  /** If every link leads somewhere, none to the directory it stands in, and no target steps up behind a
      link to a directory, then at every point of the loop every path reads what it read before. */
  lemma {:induction false} WholesomeTreesKeepReads(nodes: Nodes, links: seq<Path>, limit: nat)
    requires WellFormed(nodes) && LinksListed(nodes, links) && Wholesome(nodes)
    ensures SameReads(nodes, Materialized(nodes, links, limit).0)
    decreases |links|
  {
    hide WellFormed, Replacement, Wholesome, Reads;
    if links != [] {
      var step := Replacement(nodes, links[0], limit);
      if step.Ok? {
        ReplacementIsTree(nodes, links[0], limit);
        OneLinkFewer(nodes, step.value, links);
        WholesomeStep(nodes, links[0], limit);
        WholesomeTreesKeepReads(step.value, links[1..], limit);
      }
    }
  }

  // ---- Dangling links ----

  lemma PathIsNames(nodes: Nodes, p: Path)
    requires WellFormed(nodes) && p in nodes
    ensures UP !in p
  {
    hide WellFormed;
    if p != [] {
      HasParent(nodes, p);
      DirectoryIsDownTo(nodes, Parent(p));
      assert p == Parent(p) + [p[|p| - 1]];
    }
  }

  lemma OwnNameIsNotUp(nodes: Nodes, link: Path)
    requires WellFormed(nodes) && IsLink(nodes, link)
    ensures link != [] && link[|link| - 1] != UP && IsDirectory(nodes, Parent(link))
  {
    RootIsNoLink(nodes, link);
    HasParent(nodes, link);
  }

  /** The path of a link leads where its target leads. */
  lemma LinkLeadsAsTarget(nodes: Nodes, link: Path)
    requires WellFormed(nodes) && IsLink(nodes, link)
    ensures forall x :: LeadsTo(nodes, [], link, x) <==> LeadsTo(nodes, Base(nodes, link), nodes[link].target, x)
  {
    hide WellFormed, LeadsTo, DownTo;
    OwnNameIsNotUp(nodes, link);
    var at, c := Parent(link), link[|link| - 1];
    assert link == at + [c] && [c][1..] == [];
    DirectoryIsDownTo(nodes, at);
    LeadsDown(nodes, at, [c]);
    forall x
      ensures LeadsTo(nodes, at, [c], x) <==> StepsTo(nodes, at, c, x)
    {
      LeadsNil(nodes, x);
      LinkIsStep(nodes, link, x);
      if StepsTo(nodes, at, c, x) {
        LeadsOn(nodes, at, [c], x, x);
      }
      if LeadsTo(nodes, at, [c], x) {
        var first := LeadsByFirst(nodes, at, [c], x);
        LeadsNil(nodes, first);
      }
    }
  }

  /** Nothing can be read at or below a link that leads nowhere; any file that a later tree has there
      is content that no path read before. */
  lemma DanglingLinkGains(nodes: Nodes, after: Nodes, link: Path, s: Path)
    requires WellFormed(nodes) && IsLink(nodes, link) && !Followed(nodes, link)
    requires WellFormed(after) && link + s in after && after[link + s].File?
    ensures Reads(after, link + s, after[link + s].content)
    ensures forall c :: !Reads(nodes, link + s, c)
    ensures !SameReads(nodes, after)
  {
    hide WellFormed, LeadsTo, DownTo, StepsTo;
    StandingFileReads(after, link + s, after[link + s].content);
    PathIsNames(after, link + s);
    forall c
      ensures !Reads(nodes, link + s, c)
    {
      if Reads(nodes, link + s, c) {
        var x :| LeadsTo(nodes, [], link + s, x);
        NothingBeyondDanglingLink(nodes, link, s, x);
      }
    }
  }

  lemma LinkIsStep(nodes: Nodes, link: Path, x: Path)
    requires IsLink(nodes, link) && link != [] && link[|link| - 1] != UP && IsDirectory(nodes, Parent(link))
    ensures StepsTo(nodes, Parent(link), link[|link| - 1], x)
            <==> LeadsTo(nodes, Base(nodes, link), nodes[link].target, x)
  {
    assert link == Parent(link) + [link[|link| - 1]];
  }

  lemma NothingBeyondDanglingLink(nodes: Nodes, link: Path, s: Path, x: Path)
    requires WellFormed(nodes) && IsLink(nodes, link) && !Followed(nodes, link)
    ensures !LeadsTo(nodes, [], link + s, x)
  {
    hide WellFormed, LeadsTo, DownTo;
    OwnNameIsNotUp(nodes, link);
    var at, c := Parent(link), link[|link| - 1];
    assert link == at + [c] && link + s == at + ([c] + s);
    DirectoryIsDownTo(nodes, at);
    LeadsDown(nodes, at, [c] + s);
    if LeadsTo(nodes, at, [c] + s, x) {
      var first := LeadsByFirst(nodes, at, [c] + s, x);
      LinkIsStep(nodes, link, first);
    }
  }

  /** One pass over a link at whose end the code finds a file: nothing that is read changes, exactly if
      the resolution steps up from directories only. */
  lemma FileStepExactly(nodes: Nodes, link: Path, limit: nat)
    requires WellFormed(nodes) && IsLink(nodes, link) && FindsNode(nodes, link)
    requires nodes[Found(nodes, link).path].File?
    ensures Replacement(nodes, link, limit).Ok?
    ensures SameReads(nodes, Replacement(nodes, link, limit).value)
            <==> ClimbsFromDirectories(nodes, Base(nodes, link), nodes[link].target, {})
    ensures ClimbsFromDirectories(nodes, Base(nodes, link), nodes[link].target, {}) <==> Followed(nodes, link)
  {
    hide WellFormed, Resolve, LeadsTo, CopyTree, SameReads, ClimbsFromDirectories, ClimbsInPlace, IsCopy, Graft;
    var source := Found(nodes, link).path;
    var copy := map[[] := nodes[source]];
    ResolutionIsMeaningExactly(nodes, Base(nodes, link), nodes[link].target);
    assert ClimbsFromDirectories(nodes, Base(nodes, link), nodes[link].target, {}) ==>
        LeadsTo(nodes, Base(nodes, link), nodes[link].target, source);
    if Followed(nodes, link) {
      FileIsItsCopy(nodes, source);
      GraftKeepsReads(nodes, link, source, copy);
    } else {
      ReplacementIsTree(nodes, link, limit);
      GraftLookup(nodes, link, copy);
      assert link + [] == link;
      DanglingLinkGains(nodes, Replacement(nodes, link, limit).value, link, []);
    }
  }

  /** Every pass finds a file. */
  ghost predicate FindsOnlyFiles(nodes: Nodes, links: seq<Path>, limit: nat)
    requires WellFormed(nodes) && LinksListed(nodes, links)
    decreases |links|
  {
    links != [] ==>
    && FindsNode(nodes, links[0]) && nodes[Found(nodes, links[0]).path].File?
    && var step := Replacement(nodes, links[0], limit);
       assert step.Ok? by {
         PassesExactly(nodes, links[0], limit);
       }
       ReplacementIsTree(nodes, links[0], limit);
       OneLinkFewer(nodes, step.value, links);
       FindsOnlyFiles(step.value, links[1..], limit)
  }

  lemma {:induction false} FilesStand(nodes: Nodes, links: seq<Path>, limit: nat)
    requires WellFormed(nodes) && LinksListed(nodes, links) && FindsOnlyFiles(nodes, links, limit)
    ensures var (after, r) := Materialized(nodes, links, limit);
            r.Pass? && forall p :: p in links ==> p in after && after[p].File?
    decreases |links|
  {
    hide WellFormed, Resolve, Graft;
    if links != [] {
      var link := links[0];
      PassesExactly(nodes, link, limit);
      ReplacementIsTree(nodes, link, limit);
      var step := Replacement(nodes, link, limit).value;
      OneLinkFewer(nodes, step, links);
      GraftLookup(nodes, link, map[[] := nodes[Found(nodes, link).path]]);
      assert link + [] == link && step[link].File?;
      hide Replacement, Found, FindsNode;
      FilesStand(step, links[1..], limit);
      MaterializedKeeps(step, links[1..], limit);
      assert links == [link] + links[1..];
    }
  }

  lemma {:induction false} FollowedFileLinksKeepReads(nodes: Nodes, links: seq<Path>, limit: nat)
    requires WellFormed(nodes) && LinksListed(nodes, links) && FindsOnlyFiles(nodes, links, limit)
    requires NoDanglingLinks(nodes)
    ensures SameReads(nodes, Materialized(nodes, links, limit).0)
    decreases |links|
  {
    hide WellFormed, Resolve, Graft, LeadsTo, Reads, IsCopy, TreeShaped;
    if links != [] {
      var link := links[0];
      PassesExactly(nodes, link, limit);
      ReplacementIsTree(nodes, link, limit);
      var step := Replacement(nodes, link, limit).value;
      OneLinkFewer(nodes, step, links);
      var source := Found(nodes, link).path;
      FollowedLinkIsGrafted(nodes, link, limit);
      FileIsItsCopy(nodes, source);
      CopyOfIsTree(nodes, link, limit);
      GraftKeepsReads(nodes, link, source, map[[] := nodes[source]]);
      GraftKeepsLinks(nodes, link, source, map[[] := nodes[source]]);
      hide Replacement, Found, FindsNode, NoDanglingLinks;
      FollowedFileLinksKeepReads(step, links[1..], limit);
    }
  }

  /** Where every pass finds a file, the loop succeeds, and it changes nothing that is read exactly if no link
      of the package dangles. */
  lemma FileLinksExactly(nodes: Nodes, links: seq<Path>, limit: nat)
    requires WellFormed(nodes) && LinksListed(nodes, links) && FindsOnlyFiles(nodes, links, limit)
    ensures Materialized(nodes, links, limit).1.Pass?
    ensures SameReads(nodes, Materialized(nodes, links, limit).0) <==> NoDanglingLinks(nodes)
  {
    hide WellFormed, Materialized, FindsOnlyFiles, SameReads, Followed;
    FilesStand(nodes, links, limit);
    MaterializedKeeps(nodes, links, limit);
    var after := Materialized(nodes, links, limit).0;
    if NoDanglingLinks(nodes) {
      FollowedFileLinksKeepReads(nodes, links, limit);
    } else {
      var link :| IsLink(nodes, link) && !Followed(nodes, link);
      assert link + [] == link && link in links;
      DanglingLinkGains(nodes, after, link, []);
    }
  }

  // ---- Steps up behind a replaced link ----

  ghost predicate ReadsFrom(nodes: Nodes, at: Path, components: seq<string>, content: string) {
    exists to :: LeadsTo(nodes, at, components, to) && to in nodes && nodes[to] == File(content)
  }

  lemma {:induction false} LeadsThrough(nodes: Nodes, at: Path, front: seq<string>, mid: Path, back: seq<string>, x: Path)
    requires LeadsTo(nodes, at, front, mid)
    ensures LeadsTo(nodes, at, front + back, x) <==> LeadsTo(nodes, mid, back, x)
    decreases |front|
  {
    hide LeadsTo, StepsTo;
    LeadsNil(nodes, at);
    if front == [] {
      assert front + back == back;
    } else {
      var first := LeadsByFirst(nodes, at, front, mid);
      assert (front + back)[1..] == front[1..] + back;
      LeadsThrough(nodes, first, front[1..], mid, back, x);
      if LeadsTo(nodes, first, front[1..] + back, x) {
        LeadsOn(nodes, at, front + back, first, x);
      }
      if LeadsTo(nodes, at, front + back, x) {
        var first' := LeadsByFirst(nodes, at, front + back, x);
        StepIsUnique(nodes, at, front[0], first, first');
      }
    }
  }

  lemma LeadsUp(nodes: Nodes, at: Path, rest: seq<string>, x: Path)
    requires IsDirectory(nodes, at)
    ensures LeadsTo(nodes, at, [UP] + rest, x) <==> LeadsTo(nodes, Parent(at), rest, x)
  {
    hide Walk;
    assert ([UP] + rest)[1..] == rest;
    forall depth: nat
      ensures Walk(nodes, at, [UP] + rest, depth) == Walk(nodes, Parent(at), rest, depth)
    {
      WalkOn(nodes, at, [UP] + rest, depth);
    }
  }

  /** A link whose target steps up at x reads what the rest of the target reads from beside x. */
  lemma LinkReadsFromBeside(nodes: Nodes, link: Path, front: seq<string>, rest: seq<string>, x: Path, content: string)
    requires WellFormed(nodes) && IsLink(nodes, link) && nodes[link].target == front + ([UP] + rest)
    requires LeadsTo(nodes, Base(nodes, link), front, x) && IsDirectory(nodes, x)
    ensures Reads(nodes, link, content) <==> ReadsFrom(nodes, Parent(x), rest, content)
  {
    hide WellFormed, LeadsTo;
    LinkLeadsAsTarget(nodes, link);
    forall to
      ensures LeadsTo(nodes, [], link, to) <==> LeadsTo(nodes, Parent(x), rest, to)
    {
      LeadsThrough(nodes, Base(nodes, link), front, x, [UP] + rest, to);
      LeadsUp(nodes, x, rest, to);
    }
  }

  /** A link that steps up reads the same in two trees exactly if the rest of its target does, from beside
      the two places where it steps up. */
  lemma ClimbingLinkKeepsReadsExactly(before: Nodes, after: Nodes, link: Path, front: seq<string>, rest: seq<string>,
                                      x: Path, y: Path)
    requires WellFormed(before) && IsLink(before, link) && WellFormed(after) && IsLink(after, link)
    requires before[link] == after[link] && before[link].target == front + ([UP] + rest)
    requires LeadsTo(before, Base(before, link), front, x) && IsDirectory(before, x)
    requires LeadsTo(after, Base(after, link), front, y) && IsDirectory(after, y)
    ensures (forall c :: Reads(before, link, c) <==> Reads(after, link, c))
            <==> (forall c :: ReadsFrom(before, Parent(x), rest, c) <==> ReadsFrom(after, Parent(y), rest, c))
  {
    hide WellFormed, LeadsTo, Reads, ReadsFrom;
    forall c
      ensures Reads(before, link, c) <==> ReadsFrom(before, Parent(x), rest, c)
      ensures Reads(after, link, c) <==> ReadsFrom(after, Parent(y), rest, c)
    {
      LinkReadsFromBeside(before, link, front, rest, x, c);
      LinkReadsFromBeside(after, link, front, rest, y, c);
    }
  }

  lemma ReadsOneContent(nodes: Nodes, p: Path, c: string, d: string)
    requires Reads(nodes, p, c) && Reads(nodes, p, d)
    ensures c == d
  {
    hide LeadsTo;
    var x :| LeadsTo(nodes, [], p, x) && x in nodes && nodes[x] == File(c);
    var y :| LeadsTo(nodes, [], p, y) && y in nodes && nodes[y] == File(d);
    LeadsNowhereElse(nodes, [], p, x, y);
  }

  /** A target that steps up behind a link to a directory names what stands beside that directory. Once the copy
      is in the link's place it names what stands beside the link. If these are files of different
      content, the link with that target reads, and is replaced by, the other file. */
  lemma ClimbingLinkReadsAnother(nodes: Nodes, link: Path, source: Path, copy: Nodes, other: Path,
                                 front: seq<string>, name: string)
    requires WellFormed(nodes) && LinkLeadsTo(nodes, link, source) && IsDirectory(nodes, source)
    requires TreeShaped(copy) && IsDirectory(copy, []) && name != UP
    requires IsLink(nodes, other) && other != link
    requires Base(nodes, other) + front == link && nodes[other].target == front + ([UP] + [name])
    requires StandsFile(nodes, Parent(source) + [name]) && StandsFile(nodes, Parent(link) + [name])
    requires nodes[Parent(source) + [name]] != nodes[Parent(link) + [name]]
    ensures var after := Graft(nodes, link, copy);
            && Reads(nodes, other, nodes[Parent(source) + [name]].content)
            && Reads(after, other, nodes[Parent(link) + [name]].content)
            && !SameReads(nodes, after)
  {
    hide WellFormed, LeadsTo, Graft, TreeShaped, DownTo, Reads;
    var after, base := Graft(nodes, link, copy), Base(nodes, other);
    OwnNameIsNotUp(nodes, link);
    OwnNameIsNotUp(nodes, other);
    RootIsDirectory(nodes);
    GraftIsWellFormed(nodes, link, copy);
    GraftedLinks(nodes, link, copy);
    GraftKeepsDirectories(nodes, link, copy);
    GraftKeepsFiles(nodes, link, copy, Parent(link) + [name]);
    assert Base(after, other) == base;
    // Before: the front of the target leads through the link to the source.
    LinkLeadsAsTarget(nodes, link);
    DirectoryIsDownTo(nodes, base);
    LeadsDown(nodes, base, front);
    if source != [] {
      HasParent(nodes, source);
    }
    StandingEntryReads(nodes, Parent(source), name);
    LinkReadsFromBeside(nodes, other, front, [name], source, nodes[Parent(source) + [name]].content);
    // After: it leads to the copy, which stands where the link stood.
    DirectoryIsDownTo(after, link);
    DirectoryIsDownTo(after, base);
    LeadsDown(after, base, front);
    LeadsDown(after, link, []);
    LeadsNil(after, link);
    assert link + [] == link;
    StandingEntryReads(after, Parent(link), name);
    LinkReadsFromBeside(after, other, front, [name], link, nodes[Parent(link) + [name]].content);
    if SameReads(nodes, after) {
      PathIsNames(nodes, other);
      ReadsOneContent(nodes, other, nodes[Parent(source) + [name]].content, nodes[Parent(link) + [name]].content);
    }
  }

  predicate StandsFile(nodes: Nodes, p: Path) {
    p in nodes && nodes[p].File?
  }

  lemma GraftKeepsFiles(nodes: Nodes, link: Path, copy: Nodes, p: Path)
    requires WellFormed(nodes) && IsLink(nodes, link) && StandsFile(nodes, p)
    ensures p in Graft(nodes, link, copy) && Graft(nodes, link, copy)[p] == nodes[p]
  {
    hide WellFormed, Graft;
    GraftLookup(nodes, link, copy);
  }

  lemma StandingEntryReads(nodes: Nodes, at: Path, name: string)
    requires IsDirectory(nodes, at) && name != UP && StandsFile(nodes, at + [name])
    ensures ReadsFrom(nodes, at, [name], nodes[at + [name]].content)
  {
    assert [name][1..] == [];
    WalkOn(nodes, at, [name], 0);
    WalkNil(nodes, at + [name], 0);
    assert LeadsTo(nodes, at, [name], at + [name]);
  }

  // ---- A link to the directory it stands in ----

  lemma GraftKeepsDirectories(nodes: Nodes, link: Path, copy: Nodes)
    requires WellFormed(nodes) && IsLink(nodes, link) && IsDirectory(copy, [])
    ensures IsDirectory(Graft(nodes, link, copy), link)
    ensures forall p :: IsDirectory(nodes, p) ==> IsDirectory(Graft(nodes, link, copy), p)
  {
    hide WellFormed, Graft;
    GraftLookup(nodes, link, copy);
    assert link + [] == link;
  }

  /** Once a copy of a directory is in the link's place, there are directories all the way down to it. */
  lemma GraftedIsDownTo(nodes: Nodes, link: Path, copy: Nodes)
    requires WellFormed(nodes) && IsLink(nodes, link) && IsDirectory(copy, [])
    ensures link != [] && DownTo(nodes, Parent(link)) && DownTo(Graft(nodes, link, copy), link)
    ensures IsDirectory(Graft(nodes, link, copy), link) && IsDirectory(Graft(nodes, link, copy), Parent(link))
  {
    hide WellFormed, Graft, IsDirectory;
    OwnNameIsNotUp(nodes, link);
    var parent := Parent(link);
    assert link == parent + [link[|link| - 1]] && link[..|link|] == link && parent[..|parent|] == parent;
    DirectoryIsDownTo(nodes, parent);
    GraftKeepsDirectories(nodes, link, copy);
    forall i | 0 <= i <= |link|
      ensures IsDirectory(Graft(nodes, link, copy), link[..i])
    {
      if i < |link| {
        assert link[..i] == parent[..i];
      }
    }
  }

  /** The directory is listed after the link was removed, so its copy has no entry of that name. */
  lemma NoCopyOfTheLink(nodes: Nodes, link: Path, limit: nat)
    requires link != [] && CopyTree(nodes, Parent(link), {link}, limit).Some?
    ensures [link[|link| - 1]] !in CopyTree(nodes, Parent(link), {link}, limit).value
    ensures IsDirectory(CopyTree(nodes, Parent(link), {link}, limit).value, [])
  {
    hide CopyEntry, Combine;
    var at, c := Parent(link), link[|link| - 1];
    var entries := map name | name in ChildNames(nodes, at, {link}) :: CopyEntry(nodes, at, name, limit);
    CombineLookup(entries);
    forall p | p != [] && Parent(p) == at && p[|p| - 1] == c
      ensures p == link
    {
      assert p == at + [c] && link == at + [c];
    }
    assert [c] == [c] + [];
  }

  /** Whenever a link to its own directory is replaced and something below that directory can be read,
      a path is lost: the copy has no link of its own, so the path through two of them is gone. */
  lemma OwnParentAlwaysLoses(nodes: Nodes, link: Path, limit: nat, s: Path, to: Path)
    requires WellFormed(nodes) && IsLink(nodes, link)
    requires LeadsTo(nodes, Base(nodes, link), nodes[link].target, Parent(link))
    requires LeadsTo(nodes, Parent(link), s, to) && to in nodes && nodes[to].File?
    requires CopyTree(nodes, Parent(link), {link}, limit).Some?
    ensures link != []
    ensures var after := Graft(nodes, link, CopyTree(nodes, Parent(link), {link}, limit).value);
            var lost := link + ([link[|link| - 1]] + s);
            && Reads(nodes, lost, nodes[to].content)
            && forall c :: !Reads(after, lost, c)
  {
    hide WellFormed, CopyTree, Graft, DownTo, LeadsTo, StepsTo;
    OwnNameIsNotUp(nodes, link);
    var copy := CopyTree(nodes, Parent(link), {link}, limit).value;
    var after := Graft(nodes, link, copy);
    NoCopyOfTheLink(nodes, link, limit);
    GraftedIsDownTo(nodes, link, copy);
    GraftLookup(nodes, link, copy);
    var at, c := Parent(link), link[|link| - 1];
    var once, lost := [c] + s, link + ([c] + s);
    assert link == at + [c] && lost == at + ([c] + once);
    assert once[1..] == s && ([c] + once)[1..] == once;
    OwnParentSteps(nodes, link);
    LeadsOn(nodes, at, once, at, to);
    LeadsOn(nodes, at, [c] + once, at, to);
    LeadsDown(nodes, at, [c] + once);
    LeadsDown(after, link, once);
    forall x
      ensures !LeadsTo(after, link, once, x)
    {
      if LeadsTo(after, link, once, x) {
        var first := LeadsByFirst(after, link, once, x);
        StepNeedsEntry(after, link, c, first);
      }
    }
  }

  lemma OwnParentSteps(nodes: Nodes, link: Path)
    requires WellFormed(nodes) && IsLink(nodes, link)
    requires LeadsTo(nodes, Base(nodes, link), nodes[link].target, Parent(link))
    ensures link != [] && StepsTo(nodes, Parent(link), link[|link| - 1], Parent(link))
  {
    hide WellFormed, LeadsTo;
    OwnNameIsNotUp(nodes, link);
    assert link == Parent(link) + [link[|link| - 1]];
  }

  /** The link `d/l` leads to `d`, where it stands. */
  function OwnParentTree(): Nodes {
    map[[] := Directory, ["d"] := Directory, ["d", "f"] := File("f"), ["d", "l"] := Link(false, [])]
  }

  /** A concrete tree on which this happens: the path `d/l/l/f` is lost. */
  lemma OwnParentLosesPaths(limit: nat)
    ensures var nodes := OwnParentTree();
            var copied := CopyTree(nodes, ["d"], {["d", "l"]}, limit);
            && Reads(nodes, ["d", "l", "l", "f"], "f")
            && copied.Some?
            && forall c :: !Reads(Graft(nodes, ["d", "l"], copied.value), ["d", "l", "l", "f"], c)
  {
    var nodes, link := OwnParentTree(), ["d", "l"];
    OwnParentFacts();
    OwnParentEntries(limit);
    hide ChildNames, CopyEntry, Reads, LeadsTo, WellFormed, OwnParentTree;
    var copied := CopyTree(nodes, ["d"], {link}, limit);
    OwnParentAlwaysLoses(nodes, link, limit, ["f"], ["d", "f"]);
    assert link + (["l"] + ["f"]) == ["d", "l", "l", "f"];
  }

  lemma OwnParentFacts()
    ensures var nodes, link := OwnParentTree(), ["d", "l"];
            && WellFormed(nodes) && IsLink(nodes, link) && Parent(link) == ["d"]
            && LeadsTo(nodes, Base(nodes, link), nodes[link].target, ["d"])
            && LeadsTo(nodes, ["d"], ["f"], ["d", "f"])
            && ["d", "f"] in nodes && nodes[["d", "f"]] == File("f")
  {
    var nodes := OwnParentTree();
    assert Parent(["d", "f"]) == ["d"] && Parent(["d", "l"]) == ["d"] && Parent(["d"]) == [];
    LeadsNil(nodes, ["d"]);
    hide WellFormed;
    assert ["d"] + ["f"] == ["d", "f"] && ["f"][1..] == [];
    assert Walk(nodes, ["d"], ["f"], 0) == Walk(nodes, ["d", "f"], [], 0) == Some(["d", "f"]);
    assert LeadsTo(nodes, ["d"], ["f"], ["d", "f"]);
  }

  lemma OwnParentEntries(limit: nat)
    ensures ChildNames(OwnParentTree(), ["d"], {["d", "l"]}) == {"f"}
    ensures CopyEntry(OwnParentTree(), ["d"], "f", limit) == Some(map[[] := File("f")])
  {
    var nodes := OwnParentTree();
    assert ["d"] + ["f"] == ["d", "f"] && ["f"][1..] == [];
    assert Resolve(nodes, ["d", "f"], [], {}) == At(["d", "f"]);
    assert Parent(["d", "f"]) == ["d"] && Parent(["d"]) == [];
    assert "f" in ChildNames(nodes, ["d"], {["d", "l"]});
  }

  // ---- A step up from a file ----

  /** A step up from a link to a file: the code takes it lexically and finds a file, while the path
      means nothing, because a file has no parent directory entry to follow. */
  function SteppingTree(): Nodes {
    map[[] := Directory,
        ["d"] := Directory,
        ["d", "f"] := File("f"),
        ["d", "x"] := File("x"),
        ["a"] := Link(false, ["d", "f"]),
        ["m"] := Link(false, ["a", UP, "x"])]
  }

  lemma FoundLinkMeansNothing()
    ensures Resolve(SteppingTree(), [], ["a", UP, "x"], {}) == At(["d", "x"])
    ensures forall c :: !Reads(SteppingTree(), ["m"], c)
  {
    var nodes := SteppingTree();
    SteppingResolution(nodes);
    SteppingMeaning(nodes);
  }

  lemma SteppingResolution(nodes: Nodes)
    requires nodes.Keys >= {["a"], ["d", "f"]} && nodes[["a"]] == Link(false, ["d", "f"])
    requires !IsLink(nodes, ["d"]) && !IsLink(nodes, ["d", "f"]) && !IsLink(nodes, ["d", "x"])
    ensures Resolve(nodes, [], ["a", UP, "x"], {}) == At(["d", "x"])
  {
    assert ["d", "f"][1..] == ["f"] && ["f"][1..] == [] && ["a", UP, "x"][1..] == [UP, "x"] && [UP, "x"][1..] == ["x"];
    assert [] + ["a"] == ["a"] && [] + ["d"] == ["d"] && ["d"] + ["f"] == ["d", "f"] && ["d"] + ["x"] == ["d", "x"];
    assert Parent(["d", "f"]) == ["d"];
    assert Resolve(nodes, ["d"], ["f"], {["a"]}) == Resolve(nodes, ["d", "f"], [], {["a"]}) == At(["d", "f"]);
    assert Resolve(nodes, [], ["d", "f"], {["a"]}) == Resolve(nodes, ["d"], ["f"], {["a"]});
    assert Resolve(nodes, ["d"], ["x"], {}) == Resolve(nodes, ["d", "x"], [], {}) == At(["d", "x"]);
    assert Resolve(nodes, ["d", "f"], [UP, "x"], {}) == Resolve(nodes, ["d"], ["x"], {});
    assert {} + {["a"]} == {["a"]};
    assert Resolve(nodes, [], ["a", UP, "x"], {}) == Resolve(nodes, ["d", "f"], [UP, "x"], {});
  }

  lemma SteppingMeaning(nodes: Nodes)
    requires IsDirectory(nodes, []) && IsDirectory(nodes, ["d"])
    requires ["d", "f"] in nodes && nodes[["d", "f"]].File?
    requires ["a"] in nodes && nodes[["a"]] == Link(false, ["d", "f"])
    requires ["m"] in nodes && nodes[["m"]] == Link(false, ["a", UP, "x"])
    ensures forall c :: !Reads(nodes, ["m"], c)
  {
    assert ["d", "f"][1..] == ["f"] && ["f"][1..] == [] && ["a", UP, "x"][1..] == [UP, "x"] && [UP, "x"][1..] == ["x"];
    assert [] + ["a"] == ["a"] && [] + ["d"] == ["d"] && ["d"] + ["f"] == ["d", "f"] && [] + ["m"] == ["m"];
    forall depth: nat
      ensures Walk(nodes, [], ["m"], depth).None?
    {
      if depth > 0 {
        assert Walk(nodes, [], ["a", UP, "x"], depth - 1).None? by {
          if depth > 1 {
            assert Walk(nodes, ["d"], ["f"], depth - 2) == Some(["d", "f"]);
            assert Walk(nodes, [], ["d", "f"], depth - 2) == Some(["d", "f"]);
            assert Walk(nodes, ["d", "f"], [UP, "x"], depth - 1).None?;
          }
        }
      }
    }
  }
}
