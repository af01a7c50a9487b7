/** When `materialize_package_symlinks` of scripts/ports.py succeeds, in terms of where the links lead. */
module SymlinkPasses {
  import opened Graphs
  import opened Wrappers
  import opened SymlinkTrees
  import opened SymlinkGrafts
  import opened SymlinkCopies
  import opened Symlinks

  // ---- One pass ----

  /** The link is gone before its own directory is copied. */
  function Hidden(link: Path, source: Path): set<Path> {
    if source == Parent(link) then {link} else {}
  }

  /** The link leads to this node without leaving the package; if that is a directory, so does every link met
      below it, and no directory there is reached by more names than the limit. */
  ghost predicate PassesInside(nodes: Nodes, link: Path, source: Path, limit: nat)
    requires IsLink(nodes, link)
  {
    && LeadsInside(nodes, Base(nodes, link), nodes[link].target, source)
    && (IsDirectory(nodes, source) ==>
          InsideBelow(nodes, source, Hidden(link, source)) && ShallowBelow(nodes, source, Hidden(link, source), limit))
  }

  lemma FollowedIsFound(nodes: Nodes, link: Path, source: Path)
    requires WellFormed(nodes) && IsLink(nodes, link)
    requires LeadsTo(nodes, Base(nodes, link), nodes[link].target, source)
    ensures LeadsInside(nodes, Base(nodes, link), nodes[link].target, source) <==> Found(nodes, link).At?
    ensures Found(nodes, link).At? ==> Found(nodes, link).path == source && source in nodes
  {
    OwnNameIsNotUp(nodes, link);
    RootIsDirectory(nodes);
    hide WellFormed, Resolve, LeadsTo, LeadsInside, ClimbsFromDirectories;
    ResolvesToMeaning(nodes, Base(nodes, link), nodes[link].target, source);
    PathClimbs(nodes, Base(nodes, link), nodes[link].target, source);
    LeadsInTree(nodes, Base(nodes, link), nodes[link].target, source);
    FoundInsideExactly(nodes, Base(nodes, link), nodes[link].target, source);
  }

  lemma LeadsInTree(nodes: Nodes, at: Path, components: seq<string>, x: Path)
    requires WellFormed(nodes) && at in nodes && LeadsTo(nodes, at, components, x)
    ensures x in nodes
  {
    hide WellFormed;
    var depth: nat :| Walk(nodes, at, components, depth) == Some(x);
    WalkEndsInTree(nodes, at, components, depth);
  }

  lemma {:induction false} WalkEndsInTree(nodes: Nodes, at: Path, components: seq<string>, depth: nat)
    requires WellFormed(nodes) && at in nodes && Walk(nodes, at, components, depth).Some?
    ensures Walk(nodes, at, components, depth).value in nodes
    decreases depth, |components|
  {
    hide WellFormed;
    if components != [] {
      var next, rest := at + [components[0]], components[1..];
      if components[0] == UP {
        ParentInTree(nodes, at);
        WalkEndsInTree(nodes, Parent(at), rest, depth);
      } else if !nodes[next].Link? {
        WalkEndsInTree(nodes, next, rest, depth);
      } else {
        RootIsDirectory(nodes);
        var base := if nodes[next].absolute then [] else at;
        WalkEndsInTree(nodes, base, nodes[next].target, depth - 1);
        WalkEndsInTree(nodes, Walk(nodes, base, nodes[next].target, depth - 1).value, rest, depth);
      }
    }
  }

  /** A pass over a link that leads somewhere goes through exactly if it stays inside the package and, for
      a directory, within the limit; otherwise the error says which of the two failed. */
  lemma FollowedLinkPassesExactly(nodes: Nodes, link: Path, source: Path, limit: nat)
    requires WellFormed(nodes) && IsLink(nodes, link)
    requires LeadsTo(nodes, Base(nodes, link), nodes[link].target, source)
    requires IsDirectory(nodes, source) ==> FollowedBelow(nodes, source, Hidden(link, source))
    ensures Replacement(nodes, link, limit).Ok? <==> PassesInside(nodes, link, source, limit)
    ensures Replacement(nodes, link, limit) == Err(EscapesRoot(link))
            <==> !LeadsInside(nodes, Base(nodes, link), nodes[link].target, source)
    ensures Replacement(nodes, link, limit) != Err(NoTarget(link))
  {
    hide WellFormed, Resolve, LeadsTo, LeadsInside, CopyTree, Graft, InsideBelow, ShallowBelow, FollowedBelow;
    FollowedIsFound(nodes, link, source);
    if IsDirectory(nodes, source) {
      CopySucceedsExactly(nodes, source, Hidden(link, source), limit);
    }
  }

  // ---- The whole loop, pass by pass ----

  /** Every pass of the loop stays inside the package and within the limit, judged when its turn comes. */
  ghost predicate EveryPassInside(nodes: Nodes, links: seq<Path>, limit: nat)
    requires WellFormed(nodes) && LinksListed(nodes, links)
    decreases |links|
  {
    links != [] ==>
    assert links[0] in links;
    && (exists source :: PassesInside(nodes, links[0], source, limit))
    && var step := Replacement(nodes, links[0], limit);
       step.Ok? ==>
         (ReplacementIsTree(nodes, links[0], limit);
          OneLinkFewer(nodes, step.value, links);
          EveryPassInside(step.value, links[1..], limit))
  }

  lemma WholesomeLinkPassesExactly(nodes: Nodes, link: Path, limit: nat)
    requires WellFormed(nodes) && Wholesome(nodes) && IsLink(nodes, link)
    ensures Replacement(nodes, link, limit).Ok? <==> exists source :: PassesInside(nodes, link, source, limit)
  {
    hide WellFormed, LeadsTo, LeadsInside, Replacement, InsideBelow, ShallowBelow, FollowedBelow, LinksClimbInPlace,
         NoOwnParentLinks;
    var source :| LeadsTo(nodes, Base(nodes, link), nodes[link].target, source);
    AllFollowedBelow(nodes, source, Hidden(link, source));
    FollowedLinkPassesExactly(nodes, link, source, limit);
    forall other | PassesInside(nodes, link, other, limit)
      ensures other == source
    {
      LeadsInsideLeads(nodes, Base(nodes, link), nodes[link].target, other);
      LeadsNowhereElse(nodes, Base(nodes, link), nodes[link].target, other, source);
    }
  }

  /** On a wholesome tree the loop succeeds exactly if every pass stays inside the package and within the limit. */
  lemma {:induction false} LoopPassesExactly(nodes: Nodes, links: seq<Path>, limit: nat)
    requires WellFormed(nodes) && LinksListed(nodes, links) && Wholesome(nodes)
    ensures Materialized(nodes, links, limit).1.Pass? <==> EveryPassInside(nodes, links, limit)
    decreases |links|
  {
    hide WellFormed, Wholesome, Replacement, PassesInside, SameReads;
    if links != [] {
      assert links[0] in links;
      WholesomeLinkPassesExactly(nodes, links[0], limit);
      MaterializedStep(nodes, links, limit);
      var step := Replacement(nodes, links[0], limit);
      if step.Ok? {
        ReplacementIsTree(nodes, links[0], limit);
        WholesomeStep(nodes, links[0], limit);
        LoopPassesExactly(step.value, links[1..], limit);
      }
    }
  }

  // ---- The whole loop, by the original tree ----

  /** Every link leads somewhere inside the package through relative links. */
  ghost predicate Contained(nodes: Nodes) {
    forall p :: IsLink(nodes, p) && p != [] ==> EntersInside(nodes, Parent(p), p[|p| - 1])
  }

  /** As long as the components pass real directories, no step up is taken from the root. */
  predicate StaysBelowRoot(nodes: Nodes, at: Path, components: seq<string>)
    decreases |components|
  {
    components == [] ||
    if components[0] == UP then at != [] && StaysBelowRoot(nodes, Parent(at), components[1..])
    else IsDirectory(nodes, at + [components[0]]) ==> StaysBelowRoot(nodes, at + [components[0]], components[1..])
  }

  ghost predicate LinksStayBelowRoot(nodes: Nodes) {
    forall p :: IsLink(nodes, p) ==> !nodes[p].absolute && StaysBelowRoot(nodes, Parent(p), nodes[p].target)
  }

  lemma {:induction false} NamesStayBelowRoot(nodes: Nodes, at: Path, names: seq<string>)
    requires UP !in names
    ensures StaysBelowRoot(nodes, at, names)
    decreases |names|
  {
    if names != [] {
      assert names[0] in names;
      NamesStayBelowRoot(nodes, at + [names[0]], names[1..]);
    }
  }

  lemma {:induction false} InnerWalkStaysBelowRoot(nodes: Nodes, at: Path, components: seq<string>, depth: nat)
    requires InnerWalk(nodes, at, components, depth).Some?
    ensures StaysBelowRoot(nodes, at, components)
    decreases |components|
  {
    if components != [] {
      if components[0] == UP {
        InnerWalkStaysBelowRoot(nodes, Parent(at), components[1..], depth);
      } else if IsDirectory(nodes, at + [components[0]]) {
        InnerWalkStaysBelowRoot(nodes, at + [components[0]], components[1..], depth);
      }
    }
  }

  /** Where no link is absolute and no target climbs above the root, every walk stays inside. */
  lemma {:induction false} WalkStaysInside(nodes: Nodes, at: Path, components: seq<string>, depth: nat)
    requires LinksStayBelowRoot(nodes) && LinksClimbInPlace(nodes)
    requires ClimbsInPlace(nodes, at, components) && StaysBelowRoot(nodes, at, components)
    requires Walk(nodes, at, components, depth).Some?
    ensures InnerWalk(nodes, at, components, depth) == Walk(nodes, at, components, depth)
    decreases depth, |components|
  {
    hide LinksStayBelowRoot, LinksClimbInPlace, StepsTo;
    if components != [] {
      var c, rest := components[0], components[1..];
      var next := at + [c];
      if c == UP {
        WalkStaysInside(nodes, Parent(at), rest, depth);
      } else if !IsLink(nodes, next) {
        if IsDirectory(nodes, next) {
          WalkStaysInside(nodes, next, rest, depth);
        } else {
          assert rest == [];
        }
      } else {
        LinkStaysInside(nodes, at, c);
        var target := nodes[next].target;
        WalkStaysInside(nodes, at, target, depth - 1);
        var mid := Walk(nodes, at, target, depth - 1).value;
        LinkSteps(nodes, at, c, mid, depth - 1);
        if rest != [] {
          assert IsDirectory(nodes, mid);
          assert UP !in rest;
          NamesClimbInPlace(nodes, mid, rest);
          NamesStayBelowRoot(nodes, mid, rest);
          WalkStaysInside(nodes, mid, rest, depth);
        }
      }
    }
  }

  lemma LinkStaysInside(nodes: Nodes, at: Path, c: string)
    requires LinksStayBelowRoot(nodes) && LinksClimbInPlace(nodes) && IsLink(nodes, at + [c])
    ensures !nodes[at + [c]].absolute && Parent(at + [c]) == at
    ensures StaysBelowRoot(nodes, at, nodes[at + [c]].target) && ClimbsInPlace(nodes, at, nodes[at + [c]].target)
  {
    hide StaysBelowRoot, ClimbsInPlace;
    assert Parent(at + [c]) == at;
    assert Base(nodes, at + [c]) == at;
  }

  lemma LinkSteps(nodes: Nodes, at: Path, c: string, mid: Path, depth: nat)
    requires IsDirectory(nodes, at) && c != UP && IsLink(nodes, at + [c]) && !nodes[at + [c]].absolute
    requires Walk(nodes, at, nodes[at + [c]].target, depth) == Some(mid)
    ensures StepsTo(nodes, at, c, mid)
  {
  }

  /** Entering a link is following its target from where it stands, if it is relative. */
  lemma EntersInsideExactly(nodes: Nodes, link: Path)
    requires WellFormed(nodes) && IsLink(nodes, link)
    ensures link != []
    ensures EntersInside(nodes, Parent(link), link[|link| - 1])
            <==> !nodes[link].absolute && exists x :: LeadsInside(nodes, Parent(link), nodes[link].target, x)
  {
    OwnNameIsNotUp(nodes, link);
    hide WellFormed;
    var at, c := Parent(link), link[|link| - 1];
    assert at + [c] == link && [c][1..] == [];
    if EntersInside(nodes, at, c) {
      var z :| LeadsInside(nodes, at, [c], z);
      var depth: nat :| InnerWalk(nodes, at, [c], depth) == Some(z);
      assert InnerWalk(nodes, at, nodes[link].target, depth - 1).Some?;
      assert LeadsInside(nodes, at, nodes[link].target, InnerWalk(nodes, at, nodes[link].target, depth - 1).value);
    }
    if !nodes[link].absolute && exists x :: LeadsInside(nodes, at, nodes[link].target, x) {
      var x :| LeadsInside(nodes, at, nodes[link].target, x);
      var depth: nat :| InnerWalk(nodes, at, nodes[link].target, depth) == Some(x);
      assert InnerWalk(nodes, x, [], 0) == Some(x);
      InnerWalkThroughLink(nodes, at, [c], x, x, depth, 0);
      assert LeadsInside(nodes, at, [c], x);
    }
  }

  /** On a wholesome tree, all links lead inside exactly if none is absolute and no target climbs above the root. */
  lemma ContainedExactly(nodes: Nodes)
    requires WellFormed(nodes) && Wholesome(nodes)
    ensures Contained(nodes) <==> LinksStayBelowRoot(nodes)
  {
    hide WellFormed, ClimbsInPlace, LeadsTo, LeadsInside, InnerWalk, Walk, EntersInside, StaysBelowRoot, NoOwnParentLinks;
    if Contained(nodes) {
      forall p | IsLink(nodes, p)
        ensures !nodes[p].absolute && StaysBelowRoot(nodes, Parent(p), nodes[p].target)
      {
        EntersInsideExactly(nodes, p);
        InsideStaysBelowRoot(nodes, Parent(p), nodes[p].target);
      }
    }
    if LinksStayBelowRoot(nodes) {
      forall p | IsLink(nodes, p) && p != []
        ensures EntersInside(nodes, Parent(p), p[|p| - 1])
      {
        EntersInsideExactly(nodes, p);
        FollowedStaysInside(nodes, p);
      }
    }
  }

  lemma InsideStaysBelowRoot(nodes: Nodes, at: Path, components: seq<string>)
    requires exists x :: LeadsInside(nodes, at, components, x)
    ensures StaysBelowRoot(nodes, at, components)
  {
    var x :| LeadsInside(nodes, at, components, x);
    var depth: nat :| InnerWalk(nodes, at, components, depth) == Some(x);
    InnerWalkStaysBelowRoot(nodes, at, components, depth);
  }

  lemma FollowedStaysInside(nodes: Nodes, link: Path)
    requires LinksStayBelowRoot(nodes) && LinksClimbInPlace(nodes) && IsLink(nodes, link) && Followed(nodes, link)
    ensures exists x :: LeadsInside(nodes, Parent(link), nodes[link].target, x)
  {
    hide ClimbsInPlace, StaysBelowRoot, InnerWalk, Walk;
    assert Base(nodes, link) == Parent(link);
    var x :| LeadsTo(nodes, Parent(link), nodes[link].target, x);
    var depth: nat :| Walk(nodes, Parent(link), nodes[link].target, depth) == Some(x);
    WalkStaysInside(nodes, Parent(link), nodes[link].target, depth);
    assert LeadsInside(nodes, Parent(link), nodes[link].target, x);
  }

  lemma {:induction false} StaysBelowRootAfter(nodes: Nodes, link: Path, source: Path, copy: Nodes,
                                               y: Path, components: seq<string>)
    requires GraftsCopy(nodes, link, source, copy) && IsDirectory(nodes, y) && !(link <= y)
    requires ClimbsInPlace(nodes, y, components) && StaysBelowRoot(nodes, y, components)
    ensures StaysBelowRoot(Graft(nodes, link, copy), y, components)
    decreases |components|
  {
    hide Graft, LeadsTo, WellFormed, IsCopy, LinksClimbInPlace, Matches;
    var after := Graft(nodes, link, copy);
    if components != [] {
      var c, rest := components[0], components[1..];
      var next := y + [c];
      assert Parent(next) == y;
      if c == UP {
        ParentOutsideCopy(nodes, link, y);
        StaysBelowRootAfter(nodes, link, source, copy, Parent(y), rest);
      } else if next == link {
        SourceMatchesLink(nodes, link, source, copy);
        MatchingNodes(nodes, link, source, copy, link, source);
        assert StepsTo(nodes, y, c, source);
        if IsDirectory(after, link) {
          NamesStayBelowRoot(after, link, rest);
        }
      } else {
        EntryOutsideCopy(nodes, link, source, copy, y, c);
        if IsDirectory(nodes, next) {
          StaysBelowRootAfter(nodes, link, source, copy, next, rest);
        }
      }
    }
  }

  lemma GraftStaysBelowRoot(nodes: Nodes, link: Path, source: Path, copy: Nodes)
    requires GraftsCopy(nodes, link, source, copy) && TreeShaped(copy)
    requires LinksClimbInPlace(nodes) && LinksStayBelowRoot(nodes)
    ensures LinksStayBelowRoot(Graft(nodes, link, copy))
  {
    hide Graft, WellFormed, IsCopy, ClimbsInPlace, LeadsTo, TreeShaped, StaysBelowRoot;
    GraftedLinks(nodes, link, copy);
    var after := Graft(nodes, link, copy);
    forall p | IsLink(after, p)
      ensures !after[p].absolute && StaysBelowRoot(after, Parent(p), after[p].target)
    {
      BaseIsDirectory(nodes, link, p);
      assert Base(nodes, p) == Parent(p);
      StaysBelowRootAfter(nodes, link, source, copy, Parent(p), nodes[p].target);
    }
  }

  /** Names lead to a directory before the replacement exactly if they do after it. */
  lemma GraftMeetsSameDirectories(nodes: Nodes, link: Path, source: Path, copy: Nodes, s: Path)
    requires GraftsCopy(nodes, link, source, copy) && UP !in s
    ensures (exists x :: LeadsTo(nodes, [], s, x) && IsDirectory(nodes, x))
            <==> (exists y :: LeadsTo(Graft(nodes, link, copy), [], s, y) && IsDirectory(Graft(nodes, link, copy), y))
  {
    hide GraftsCopy, Graft, Walk, Matches, Followable;
    var after := Graft(nodes, link, copy);
    RootMatches(nodes, link, source, copy, s);
    if x :| LeadsTo(nodes, [], s, x) && IsDirectory(nodes, x) {
      var depth: nat :| Walk(nodes, [], s, depth) == Some(x);
      var y := WalkAfterGraft(nodes, link, source, copy, [], [], s, depth);
      MatchingNodes(nodes, link, source, copy, y, x);
      assert LeadsTo(after, [], s, y) && IsDirectory(after, y);
    }
    if y :| LeadsTo(after, [], s, y) && IsDirectory(after, y) {
      var depth: nat :| Walk(after, [], s, depth) == Some(y);
      var x := WalkBeforeGraft(nodes, link, source, copy, [], [], s, depth);
      MatchingNodes(nodes, link, source, copy, y, x);
      assert LeadsTo(nodes, [], s, x) && IsDirectory(nodes, x);
    }
  }

  /** No directory of the package is reached by more names than this. */
  ghost predicate Shallow(nodes: Nodes, limit: nat) {
    forall s :: ReachesDirectory(nodes, s) ==> |s| <= limit
  }

  ghost predicate ReachesDirectory(nodes: Nodes, s: Path) {
    UP !in s && exists x :: LeadsTo(nodes, [], s, x) && IsDirectory(nodes, x)
  }

  lemma GraftIsAsShallow(nodes: Nodes, link: Path, source: Path, copy: Nodes, limit: nat)
    requires GraftsCopy(nodes, link, source, copy)
    ensures Shallow(nodes, limit) <==> Shallow(Graft(nodes, link, copy), limit)
  {
    hide GraftsCopy, Graft, LeadsTo, IsDirectory;
    forall s
      ensures ReachesDirectory(nodes, s) <==> ReachesDirectory(Graft(nodes, link, copy), s)
    {
      if UP !in s {
        GraftMeetsSameDirectories(nodes, link, source, copy, s);
      }
    }
  }

  lemma ContainedLinkPasses(nodes: Nodes, link: Path, limit: nat)
    requires WellFormed(nodes) && Wholesome(nodes) && Contained(nodes) && Shallow(nodes, limit) && IsLink(nodes, link)
    ensures Replacement(nodes, link, limit).Ok?
  {
    hide WellFormed, LeadsTo, LeadsInside, Replacement, ReachesDirectory, LinksClimbInPlace, FollowedBelow, StaysBelowRoot;
    RootIsNoLink(nodes, link);
    EntersInsideExactly(nodes, link);
    var source :| LeadsInside(nodes, Parent(link), nodes[link].target, source);
    assert Base(nodes, link) == Parent(link);
    LeadsInsideLeads(nodes, Parent(link), nodes[link].target, source);
    assert Hidden(link, source) == {};
    AllFollowedBelow(nodes, source, {});
    AllInsideBelow(nodes, source);
    BelowIsShallow(nodes, link, source, limit);
    FollowedLinkPassesExactly(nodes, link, source, limit);
  }

  lemma AllInsideBelow(nodes: Nodes, at: Path)
    requires Contained(nodes)
    ensures InsideBelow(nodes, at, {})
  {
    hide LeadsTo, EntersInside;
    forall s, x, c | MeetsLink(nodes, at, {}, s, x, c)
      ensures EntersInside(nodes, x, c)
    {
      assert Parent(x + [c]) == x && (x + [c])[|x + [c]| - 1] == c;
    }
  }

  lemma BelowIsShallow(nodes: Nodes, link: Path, source: Path, limit: nat)
    requires WellFormed(nodes) && IsLink(nodes, link) && Shallow(nodes, limit)
    requires LeadsTo(nodes, Base(nodes, link), nodes[link].target, source)
    ensures ShallowBelow(nodes, source, {}, limit)
  {
    hide WellFormed, LeadsTo;
    LinkLeadsAsTarget(nodes, link);
    PathIsNames(nodes, link);
    forall s, x | MeetsDirectory(nodes, source, {}, s, x)
      ensures |s| <= limit
    {
      LeadsThrough(nodes, [], link, source, s, x);
      assert ReachesDirectory(nodes, link + s);
    }
  }

  /** If every link leads somewhere inside the package, the loop succeeds within the limit that bounds the names
      of its directories. */
  lemma {:induction false} ContainedTreesPass(nodes: Nodes, links: seq<Path>, limit: nat)
    requires WellFormed(nodes) && LinksListed(nodes, links) && Wholesome(nodes) && Contained(nodes)
    requires Shallow(nodes, limit)
    ensures Materialized(nodes, links, limit).1.Pass?
    decreases |links|
  {
    hide WellFormed, Wholesome, Contained, Shallow, Replacement, SameReads, Materialized;
    if links == [] {
      NothingToMaterialize(nodes, links, limit);
    } else {
      MaterializedStep(nodes, links, limit);
      ContainedLinkPasses(nodes, links[0], limit);
      ContainedStep(nodes, links[0], limit, limit);
      WholesomeStep(nodes, links[0], limit);
      ContainedTreesPass(Replacement(nodes, links[0], limit).value, links[1..], limit);
    }
  }

  lemma ContainedStep(nodes: Nodes, link: Path, limit: nat, bound: nat)
    requires WellFormed(nodes) && Wholesome(nodes) && IsLink(nodes, link) && Replacement(nodes, link, limit).Ok?
    ensures var after := Replacement(nodes, link, limit).value;
            && (Contained(nodes) ==> Contained(after))
            && (Shallow(nodes, bound) <==> Shallow(after, bound))
  {
    var source, copy := WholesomeGraft(nodes, link, limit);
    var after := Replacement(nodes, link, limit).value;
    ReplacementIsTree(nodes, link, limit);
    WholesomeStep(nodes, link, limit);
    hide WellFormed, Replacement, GraftsCopy, Graft, Contained, Shallow, LinksStayBelowRoot, SameReads, Keeps,
         NoDanglingLinks, NoOwnParentLinks, LinksClimbInPlace, TreeShaped;
    GraftIsAsShallow(nodes, link, source, copy, bound);
    if Contained(nodes) {
      ContainedExactly(nodes);
      GraftStaysBelowRoot(nodes, link, source, copy);
      ContainedExactly(after);
    }
  }

  // ---- With any limit ----

  /** In a tree without links, names lead to where they say. */
  lemma {:induction false} LinklessWalk(nodes: Nodes, at: Path, s: Path, depth: nat)
    requires forall p :: !IsLink(nodes, p)
    requires UP !in s && Walk(nodes, at, s, depth).Some?
    ensures Walk(nodes, at, s, depth) == Some(at + s)
    decreases |s|
  {
    if s == [] {
      assert at + s == at;
    } else {
      assert s[0] in s && at + s == at + [s[0]] + s[1..];
      assert !IsLink(nodes, at + [s[0]]);
      LinklessWalk(nodes, at + [s[0]], s[1..], depth);
    }
  }

  lemma {:induction false} PathsAreBounded(paths: set<Path>) returns (bound: nat)
    ensures forall p :: p in paths ==> |p| <= bound
    decreases |paths|
  {
    bound := 0;
    if p :| p in paths {
      var rest := PathsAreBounded(paths - {p});
      bound := if rest > |p| then rest else |p|;
      forall q | q in paths
        ensures |q| <= bound
      {
        assert q == p || q in paths - {p};
      }
    }
  }

  lemma LinklessIsShallow(nodes: Nodes) returns (bound: nat)
    requires forall p :: !IsLink(nodes, p)
    ensures Shallow(nodes, bound)
  {
    bound := PathsAreBounded(nodes.Keys);
    forall s | ReachesDirectory(nodes, s)
      ensures |s| <= bound
    {
      var x :| LeadsTo(nodes, [], s, x) && IsDirectory(nodes, x);
      var depth: nat :| Walk(nodes, [], s, depth) == Some(x);
      LinklessWalk(nodes, [], s, depth);
      assert [] + s == s;
    }
  }

  /** Success keeps the names by which directories are reached, so there was a bound on them. */
  lemma {:induction false} PassedTreesAreShallow(nodes: Nodes, links: seq<Path>, limit: nat, bound: nat)
    requires WellFormed(nodes) && LinksListed(nodes, links) && Wholesome(nodes)
    requires Materialized(nodes, links, limit).1.Pass?
    requires Shallow(Materialized(nodes, links, limit).0, bound)
    ensures Shallow(nodes, bound)
    decreases |links|
  {
    hide WellFormed, Wholesome, Contained, Shallow, Replacement, SameReads, Materialized;
    if links == [] {
      NothingToMaterialize(nodes, links, limit);
    } else {
      MaterializedStep(nodes, links, limit);
      ContainedStep(nodes, links[0], limit, bound);
      WholesomeStep(nodes, links[0], limit);
      PassedTreesAreShallow(Replacement(nodes, links[0], limit).value, links[1..], limit, bound);
    }
  }

  /** If every link leads somewhere inside the package, the loop succeeds with some nesting limit exactly if no
      directory can be reached by arbitrarily many names, as through a link to a directory above it. */
  lemma ContainedTreesPassExactly(nodes: Nodes, links: seq<Path>)
    requires WellFormed(nodes) && LinksListed(nodes, links) && Wholesome(nodes) && Contained(nodes)
    ensures (exists limit: nat :: Materialized(nodes, links, limit).1.Pass?) <==> exists bound: nat :: Shallow(nodes, bound)
  {
    hide WellFormed, Wholesome, Contained, Shallow, Materialized;
    if bound: nat :| Shallow(nodes, bound) {
      ContainedTreesPass(nodes, links, bound);
    }
    if limit: nat :| Materialized(nodes, links, limit).1.Pass? {
      MaterializedKeeps(nodes, links, limit);
      var bound := LinklessIsShallow(Materialized(nodes, links, limit).0);
      PassedTreesAreShallow(nodes, links, limit, bound);
    }
  }
}
