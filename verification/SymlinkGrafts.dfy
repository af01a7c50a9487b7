/** Putting a copy in the place of a link keeps what every path reads. */
module SymlinkGrafts {
  import opened Wrappers
  import opened SymlinkTrees

  /** The link leads to this node. */
  ghost predicate LinkLeadsTo(nodes: Nodes, link: Path, source: Path) {
    && IsLink(nodes, link)
    && LeadsTo(nodes, Base(nodes, link), nodes[link].target, source)
    && source in nodes
  }

  /** The copy holds exactly the nodes that names lead to from the source, with links followed. */
  ghost predicate IsCopy(nodes: Nodes, source: Path, copy: Nodes) {
    && (forall s :: s in copy ==> UP !in s && !copy[s].Link?)
    && (forall s, x :: UP !in s && LeadsTo(nodes, source, s, x) ==> s in copy && x in nodes && copy[s] == nodes[x])
    && (forall s :: s in copy ==> exists x :: LeadsTo(nodes, source, s, x))
  }

  function Below(link: Path, copy: Nodes): set<Path> {
    set s | s in copy :: link + s
  }

  function Graft(nodes: Nodes, link: Path, copy: Nodes): Nodes {
    map p | p in (nodes.Keys - {link}) + Below(link, copy) ::
      if p in Below(link, copy) then GraftedNode(link, copy, p) else nodes[p]
  }

  function GraftedNode(link: Path, copy: Nodes, p: Path): Node
    requires p in Below(link, copy)
  {
    assert exists s :: s in copy && p == link + s;
    assert p[|link|..] in copy by {
      var s :| s in copy && p == link + s;
      assert p[|link|..] == s;
    }
    copy[p[|link|..]]
  }

  lemma {:induction false} NothingBelowLink(nodes: Nodes, link: Path, s: Path)
    requires WellFormed(nodes) && IsLink(nodes, link) && s != []
    ensures link + s !in nodes
  {
    var p := link + s;
    assert Parent(p) == link + s[..|s| - 1];
    if |s| > 1 {
      NothingBelowLink(nodes, link, s[..|s| - 1]);
    } else {
      assert link + s[..0] == link;
    }
  }

  lemma GraftLookup(nodes: Nodes, link: Path, copy: Nodes)
    requires WellFormed(nodes) && IsLink(nodes, link)
    ensures forall s :: link + s in Graft(nodes, link, copy) <==> s in copy
    ensures forall s :: s in copy ==> Graft(nodes, link, copy)[link + s] == copy[s]
    ensures forall p :: p in nodes && p != link ==> p in Graft(nodes, link, copy) && Graft(nodes, link, copy)[p] == nodes[p]
    ensures forall p :: p in Graft(nodes, link, copy) && !(link <= p) ==> p in nodes
  {
    hide WellFormed;
    var grafted := Graft(nodes, link, copy);
    forall s
      ensures link + s in grafted <==> s in copy
      ensures s in copy ==> grafted[link + s] == copy[s]
    {
      assert (link + s)[|link|..] == s;
      if s != [] {
        NothingBelowLink(nodes, link, s);
      } else {
        assert link + s == link;
      }
    }
    forall p | p in nodes && p != link
      ensures p in grafted && grafted[p] == nodes[p]
    {
      if p in Below(link, copy) {
        var s :| s in copy && p == link + s;
        if s != [] {
          NothingBelowLink(nodes, link, s);
        }
      }
    }
  }

  // ---- No step up behind a link to a directory ----

  /** Wherever the components pass a link to a directory, no step upwards comes later. */
  ghost predicate ClimbsInPlace(nodes: Nodes, at: Path, components: seq<string>)
    decreases |components|
  {
    components == [] ||
    var c, rest := components[0], components[1..];
    if c == UP then ClimbsInPlace(nodes, Parent(at), rest)
    else if IsLink(nodes, at + [c]) then
      UP in rest ==> forall m :: StepsTo(nodes, at, c, m) ==> !IsDirectory(nodes, m)
    else IsDirectory(nodes, at + [c]) ==> ClimbsInPlace(nodes, at + [c], rest)
  }

  ghost predicate LinksClimbInPlace(nodes: Nodes) {
    forall p :: IsLink(nodes, p) ==> ClimbsInPlace(nodes, Base(nodes, p), nodes[p].target)
  }

  lemma {:induction false} NamesClimbInPlace(nodes: Nodes, at: Path, names: seq<string>)
    requires UP !in names
    ensures ClimbsInPlace(nodes, at, names)
    decreases |names|
  {
    if names != [] {
      assert names[0] in names;
      NamesClimbInPlace(nodes, at + [names[0]], names[1..]);
    }
  }

  // ---- The same place before and after ----

  /** A copy of what the link leads to. Where that is a directory, no target steps up behind a link. */
  ghost predicate GraftsCopy(nodes: Nodes, link: Path, source: Path, copy: Nodes) {
    && WellFormed(nodes) && LinkLeadsTo(nodes, link, source) && IsCopy(nodes, source, copy)
    && (IsDirectory(nodes, source) ==> LinksClimbInPlace(nodes))
  }

  /** The same place in the tree before (`x`) and after (`y`) the copy took the link's place: either it is
      outside the copy, or the names that lead into the copy lead from the source to it. */
  ghost predicate Matches(nodes: Nodes, link: Path, source: Path, y: Path, x: Path) {
    if link <= y then UP !in y[|link|..] && LeadsTo(nodes, source, y[|link|..], x)
    else y == x && x in nodes
  }

  /** Inside the copy of a directory only plain names are followed. */
  ghost predicate Followable(nodes: Nodes, link: Path, source: Path, y: Path, components: seq<string>) {
    IsDirectory(nodes, source) ==>
      if link <= y then UP !in components else ClimbsInPlace(nodes, y, components)
  }

  lemma MatchingNodes(nodes: Nodes, link: Path, source: Path, copy: Nodes, y: Path, x: Path)
    requires GraftsCopy(nodes, link, source, copy) && Matches(nodes, link, source, y, x)
    ensures var after := Graft(nodes, link, copy);
            x in nodes && y in after && after[y] == nodes[x]
    ensures !IsLink(Graft(nodes, link, copy), y) || !(link <= y)
  {
    hide WellFormed, LinksClimbInPlace, LeadsTo, Graft;
    GraftLookup(nodes, link, copy);
    if link <= y {
      var s := y[|link|..];
      assert y == link + s;
      assert s in copy;
    } else {
      assert x != link;
    }
  }

  lemma SourceMatchesLink(nodes: Nodes, link: Path, source: Path, copy: Nodes)
    requires GraftsCopy(nodes, link, source, copy)
    ensures Matches(nodes, link, source, link, source)
  {
    assert link[|link|..] == [];
    LeadsNil(nodes, source);
  }

  /** A step from inside the copy stays inside. */
  lemma StepInsideCopy(nodes: Nodes, link: Path, source: Path, copy: Nodes, y: Path, x: Path, c: string)
    requires GraftsCopy(nodes, link, source, copy) && Matches(nodes, link, source, y, x)
    requires link <= y && c != UP
    ensures forall mid :: StepsTo(nodes, x, c, mid) ==>
              StepsTo(Graft(nodes, link, copy), y, c, y + [c]) && Matches(nodes, link, source, y + [c], mid)
    ensures forall mid' :: StepsTo(Graft(nodes, link, copy), y, c, mid') ==>
              mid' == y + [c] && exists mid :: StepsTo(nodes, x, c, mid) && Matches(nodes, link, source, mid', mid)
  {
    hide WellFormed, LinksClimbInPlace, LeadsTo, Graft;
    var after := Graft(nodes, link, copy);
    var s := y[|link|..];
    assert y == link + s && y + [c] == link + (s + [c]) && (y + [c])[|link|..] == s + [c];
    GraftLookup(nodes, link, copy);
    MatchingNodes(nodes, link, source, copy, y, x);
    forall mid | StepsTo(nodes, x, c, mid)
      ensures StepsTo(after, y, c, y + [c]) && Matches(nodes, link, source, y + [c], mid)
    {
      LeadsAppend(nodes, source, s, x, c, mid);
      assert s + [c] in copy;
    }
    forall mid' | StepsTo(after, y, c, mid')
      ensures mid' == y + [c] && exists mid :: StepsTo(nodes, x, c, mid) && Matches(nodes, link, source, mid', mid)
    {
      assert s + [c] in copy;
      var mid :| LeadsTo(nodes, source, s + [c], mid);
      LeadsByLast(nodes, source, s, c, x, mid);
    }
  }

  /** Outside the copy, below nothing but directories, the two trees have the same entries. */
  lemma EntryOutsideCopy(nodes: Nodes, link: Path, source: Path, copy: Nodes, at: Path, c: string)
    requires GraftsCopy(nodes, link, source, copy) && !(link <= at) && at in nodes && at + [c] != link
    ensures !(link <= at + [c])
    ensures at + [c] in nodes <==> at + [c] in Graft(nodes, link, copy)
    ensures at + [c] in nodes ==> Graft(nodes, link, copy)[at + [c]] == nodes[at + [c]]
  {
    hide WellFormed, LinksClimbInPlace, LeadsTo, Graft;
    GraftLookup(nodes, link, copy);
    assert |link| <= |at| ==> (at + [c])[..|link|] == at[..|link|];
  }

  lemma ParentOutsideCopy(nodes: Nodes, link: Path, at: Path)
    requires WellFormed(nodes) && IsLink(nodes, link) && at in nodes && !(link <= at)
    ensures !(link <= Parent(at)) && IsDirectory(nodes, Parent(at))
  {
  }

  lemma BaseIsOutside(nodes: Nodes, link: Path, source: Path, copy: Nodes, other: Path)
    requires GraftsCopy(nodes, link, source, copy) && IsLink(nodes, other) && other != link
    ensures var base := Base(nodes, other);
            Matches(nodes, link, source, base, base) && Followable(nodes, link, source, base, nodes[other].target)
  {
    hide ClimbsInPlace, IsCopy, LeadsTo;
    RootIsNoLink(nodes, link);
    RootIsNoLink(nodes, other);
    HasParent(nodes, other);
    RootIsDirectory(nodes);
    hide WellFormed;
    if link <= Parent(other) {
      assert Parent(other) == link + Parent(other)[|link|..];
      if Parent(other) != link {
        NothingBelowLink(nodes, link, Parent(other)[|link|..]);
      }
    }
  }

  /** Inside a copy that has a directory, the source is one. */
  lemma DirectoryInside(nodes: Nodes, link: Path, source: Path, y: Path, x: Path)
    requires Matches(nodes, link, source, y, x) && link <= y && IsDirectory(nodes, x)
    ensures IsDirectory(nodes, source)
  {
    hide LeadsTo;
    if !IsDirectory(nodes, source) {
      LeadsOnlyFromDirectories(nodes, source, y[|link|..], x);
    }
  }

  /** Behind a link that is not stepped up from, or that leads to no directory, anything is followable. */
  lemma FollowableBehindLink(nodes: Nodes, link: Path, source: Path, y: Path, rest: seq<string>)
    requires UP !in rest
    ensures Followable(nodes, link, source, y, rest)
  {
    NamesClimbInPlace(nodes, y, rest);
  }

  /** Every walk before the replacement has a matching walk after it. */
  lemma {:induction false} WalkAfterGraft(nodes: Nodes, link: Path, source: Path, copy: Nodes,
                                          y: Path, x: Path, components: seq<string>, depth: nat)
      returns (to: Path)
    requires GraftsCopy(nodes, link, source, copy) && Matches(nodes, link, source, y, x)
    requires Followable(nodes, link, source, y, components) && Walk(nodes, x, components, depth).Some?
    ensures LeadsTo(Graft(nodes, link, copy), y, components, to)
    ensures Matches(nodes, link, source, to, Walk(nodes, x, components, depth).value)
    decreases depth, |components|
  {
    hide GraftsCopy, LeadsTo, Graft, Walk, Matches, Followable, StepsTo;
    var after := Graft(nodes, link, copy);
    if components == [] {
      LeadsNil(after, y);
      WalkNil(nodes, x, depth);
      return y;
    }
    var c, rest := components[0], components[1..];
    var mid := FirstStep(nodes, x, components, depth);
    var mid' := StepAfterGraft(nodes, link, source, copy, y, x, components, mid, depth);
    to := WalkAfterGraft(nodes, link, source, copy, mid', mid, rest, depth);
    LeadsOn(after, y, components, mid', to);
  }

  lemma FirstStepEntersLink(nodes: Nodes, at: Path, components: seq<string>, depth: nat)
    requires components != [] && components[0] != UP && IsLink(nodes, at + [components[0]])
    requires Walk(nodes, at, components, depth).Some?
    ensures var link := nodes[at + [components[0]]];
            depth > 0 && Walk(nodes, if link.absolute then [] else at, link.target, depth - 1)
                         == Some(FirstStep(nodes, at, components, depth))
  {
  }

  lemma StepThroughTheLink(nodes: Nodes, link: Path, source: Path, at: Path, c: string, mid: Path)
    requires LinkLeadsTo(nodes, link, source) && link == at + [c] && c != UP
    requires StepsTo(nodes, at, c, mid)
    ensures mid == source
  {
    hide LeadsTo;
    assert Parent(link) == at;
    LeadsNowhereElse(nodes, Base(nodes, link), nodes[link].target, mid, source);
  }

  lemma {:induction false} StepAfterGraft(nodes: Nodes, link: Path, source: Path, copy: Nodes,
                                          y: Path, x: Path, components: seq<string>, mid: Path, depth: nat)
      returns (mid': Path)
    requires GraftsCopy(nodes, link, source, copy) && Matches(nodes, link, source, y, x)
    requires components != [] && Followable(nodes, link, source, y, components)
    requires Walk(nodes, x, components, depth).Some? && mid == FirstStep(nodes, x, components, depth)
    ensures StepsTo(Graft(nodes, link, copy), y, components[0], mid')
    ensures Matches(nodes, link, source, mid', mid) && Followable(nodes, link, source, mid', components[1..])
    decreases depth, 0
  {
    hide Graft, LeadsTo, WellFormed, IsCopy, FirstStep, LinksClimbInPlace;
    var c, rest := components[0], components[1..];
    assert c != UP && UP in components ==> UP in rest;
    assert rest != [] ==> IsDirectory(nodes, mid);
    hide Walk;
    MatchingNodes(nodes, link, source, copy, y, x);
    if link <= y {
      DirectoryInside(nodes, link, source, y, x);
      assert c in components;
      StepInsideCopy(nodes, link, source, copy, y, x, c);
      mid' := y + [c];
    } else if c == UP {
      ParentOutsideCopy(nodes, link, x);
      mid' := mid;
    } else {
      var next := x + [c];
      assert Parent(next) == x;
      if next == link {
        StepThroughTheLink(nodes, link, source, x, c, mid);
        SourceMatchesLink(nodes, link, source, copy);
        MatchingNodes(nodes, link, source, copy, link, source);
        mid' := link;
      } else {
        EntryOutsideCopy(nodes, link, source, copy, x, c);
        if nodes[next].Link? {
          BaseIsOutside(nodes, link, source, copy, next);
          FirstStepEntersLink(nodes, x, components, depth);
          mid' := WalkAfterGraft(nodes, link, source, copy, Base(nodes, next), Base(nodes, next),
                                 nodes[next].target, depth - 1);
          if UP !in rest {
            FollowableBehindLink(nodes, link, source, mid', rest);
          }
        } else {
          mid' := next;
        }
      }
    }
  }

  /** Every walk after the replacement comes from a matching walk before it. */
  lemma {:induction false} WalkBeforeGraft(nodes: Nodes, link: Path, source: Path, copy: Nodes,
                                           y: Path, x: Path, components: seq<string>, depth: nat)
      returns (to: Path)
    requires GraftsCopy(nodes, link, source, copy) && Matches(nodes, link, source, y, x)
    requires Followable(nodes, link, source, y, components) && Walk(Graft(nodes, link, copy), y, components, depth).Some?
    ensures LeadsTo(nodes, x, components, to)
    ensures Matches(nodes, link, source, Walk(Graft(nodes, link, copy), y, components, depth).value, to)
    decreases depth, |components|
  {
    hide GraftsCopy, LeadsTo, Graft, Walk, Matches, Followable, StepsTo;
    var after := Graft(nodes, link, copy);
    if components == [] {
      LeadsNil(nodes, x);
      WalkNil(after, y, depth);
      return x;
    }
    var mid' := FirstStep(after, y, components, depth);
    var mid := StepBeforeGraft(nodes, link, source, copy, y, x, components, mid', depth);
    to := WalkBeforeGraft(nodes, link, source, copy, mid', mid, components[1..], depth);
    LeadsOn(nodes, x, components, mid, to);
  }

  lemma {:induction false} StepBeforeGraft(nodes: Nodes, link: Path, source: Path, copy: Nodes,
                                           y: Path, x: Path, components: seq<string>, mid': Path, depth: nat)
      returns (mid: Path)
    requires GraftsCopy(nodes, link, source, copy) && Matches(nodes, link, source, y, x)
    requires components != [] && Followable(nodes, link, source, y, components)
    requires var after := Graft(nodes, link, copy);
             Walk(after, y, components, depth).Some? && mid' == FirstStep(after, y, components, depth)
    ensures StepsTo(nodes, x, components[0], mid)
    ensures Matches(nodes, link, source, mid', mid) && Followable(nodes, link, source, mid', components[1..])
    decreases depth, 0
  {
    hide Graft, LeadsTo, WellFormed, IsCopy, FirstStep, LinksClimbInPlace;
    var after := Graft(nodes, link, copy);
    var c, rest := components[0], components[1..];
    assert c != UP && UP in components ==> UP in rest;
    assert rest != [] ==> IsDirectory(after, mid');
    hide Walk;
    MatchingNodes(nodes, link, source, copy, y, x);
    if link <= y {
      DirectoryInside(nodes, link, source, y, x);
      assert c in components;
      StepInsideCopy(nodes, link, source, copy, y, x, c);
      mid :| StepsTo(nodes, x, c, mid) && Matches(nodes, link, source, mid', mid);
    } else if c == UP {
      ParentOutsideCopy(nodes, link, x);
      mid := mid';
    } else {
      var next := x + [c];
      assert Parent(next) == x;
      SourceMatchesLink(nodes, link, source, copy);
      MatchingNodes(nodes, link, source, copy, link, source);
      if next == link {
        mid := source;
      } else {
        EntryOutsideCopy(nodes, link, source, copy, x, c);
        if nodes[next].Link? {
          BaseIsOutside(nodes, link, source, copy, next);
          FirstStepEntersLink(after, y, components, depth);
          mid := WalkBeforeGraft(nodes, link, source, copy, Base(nodes, next), Base(nodes, next),
                                 nodes[next].target, depth - 1);
          MatchingNodes(nodes, link, source, copy, mid', mid);
          if UP !in rest {
            FollowableBehindLink(nodes, link, source, mid', rest);
          }
        } else {
          mid := next;
        }
      }
    }
  }

  lemma RootMatches(nodes: Nodes, link: Path, source: Path, copy: Nodes, p: Path)
    requires GraftsCopy(nodes, link, source, copy) && UP !in p
    ensures Matches(nodes, link, source, [], []) && Followable(nodes, link, source, [], p)
  {
    assert link != [];
    NamesClimbInPlace(nodes, [], p);
  }

  /** The invariant of the loop: one replacement changes what no path of names reads. */
  lemma GraftKeepsReads(nodes: Nodes, link: Path, source: Path, copy: Nodes)
    requires GraftsCopy(nodes, link, source, copy)
    ensures SameReads(nodes, Graft(nodes, link, copy))
  {
    hide GraftsCopy, Graft, Walk, Matches, Followable;
    var after := Graft(nodes, link, copy);
    forall p, c | UP !in p
      ensures Reads(nodes, p, c) <==> Reads(after, p, c)
    {
      RootMatches(nodes, link, source, copy, p);
      if Reads(nodes, p, c) {
        var x :| LeadsTo(nodes, [], p, x) && x in nodes && nodes[x] == File(c);
        var depth: nat :| Walk(nodes, [], p, depth) == Some(x);
        var y := WalkAfterGraft(nodes, link, source, copy, [], [], p, depth);
        MatchingNodes(nodes, link, source, copy, y, x);
      }
      if Reads(after, p, c) {
        var y :| LeadsTo(after, [], p, y) && y in after && after[y] == File(c);
        var depth: nat :| Walk(after, [], p, depth) == Some(y);
        var x := WalkBeforeGraft(nodes, link, source, copy, [], [], p, depth);
        MatchingNodes(nodes, link, source, copy, y, x);
      }
    }
  }

  /** No link leads to the very directory it stands in. */
  ghost predicate NoOwnParentLinks(nodes: Nodes) {
    forall p :: IsLink(nodes, p) ==> !LeadsTo(nodes, Base(nodes, p), nodes[p].target, Parent(p))
  }

  /** The link leads somewhere in the installed package. */
  ghost predicate Followed(nodes: Nodes, link: Path)
    requires IsLink(nodes, link)
  {
    exists x :: LeadsTo(nodes, Base(nodes, link), nodes[link].target, x)
  }

  ghost predicate NoDanglingLinks(nodes: Nodes) {
    forall p :: IsLink(nodes, p) ==> Followed(nodes, p)
  }

  // ---- The tree stays a tree ----

  /** A copy hangs together and has no links. */
  ghost predicate TreeShaped(copy: Nodes) {
    && [] in copy
    && (forall s :: s in copy ==> !copy[s].Link?)
    && (forall s :: s in copy && s != [] ==> IsDirectory(copy, Parent(s)) && s[|s| - 1] != UP)
  }

  lemma GraftedLinks(nodes: Nodes, link: Path, copy: Nodes)
    requires WellFormed(nodes) && IsLink(nodes, link) && TreeShaped(copy)
    ensures var after := Graft(nodes, link, copy);
            forall p :: IsLink(after, p) <==> IsLink(nodes, p) && p != link
    ensures var after := Graft(nodes, link, copy);
            forall p :: IsLink(after, p) ==> after[p] == nodes[p] && !(link <= p)
  {
    hide WellFormed, Graft;
    var after := Graft(nodes, link, copy);
    GraftLookup(nodes, link, copy);
    forall p
      ensures IsLink(after, p) <==> IsLink(nodes, p) && p != link
      ensures IsLink(after, p) ==> after[p] == nodes[p] && !(link <= p)
    {
      if link <= p {
        var s := p[|link|..];
        assert p == link + s;
        if s != [] {
          NothingBelowLink(nodes, link, s);
        }
      }
    }
  }

  lemma GraftIsWellFormed(nodes: Nodes, link: Path, copy: Nodes)
    requires WellFormed(nodes) && IsLink(nodes, link) && TreeShaped(copy)
    ensures WellFormed(Graft(nodes, link, copy))
  {
    hide Graft, TreeShaped;
    var after := Graft(nodes, link, copy);
    GraftLookup(nodes, link, copy);
    RootIsNoLink(nodes, link);
    assert IsDirectory(after, []);
    forall p | p in after && p != []
      ensures IsDirectory(after, Parent(p)) && p[|p| - 1] != UP
    {
      if link < p {
        assert p == link + p[|link|..];
        CopiedHasParent(nodes, link, copy, p[|link|..]);
      } else {
        KeptHasParent(nodes, link, copy, p);
      }
    }
  }

  lemma CopiedHasParent(nodes: Nodes, link: Path, copy: Nodes, s: Path)
    requires WellFormed(nodes) && IsLink(nodes, link) && TreeShaped(copy) && s != []
    requires link + s in Graft(nodes, link, copy)
    ensures var p := link + s; IsDirectory(Graft(nodes, link, copy), Parent(p)) && p[|p| - 1] != UP
  {
    hide Graft, WellFormed;
    GraftLookup(nodes, link, copy);
    assert Parent(link + s) == link + Parent(s);
  }

  lemma KeptHasParent(nodes: Nodes, link: Path, copy: Nodes, p: Path)
    requires WellFormed(nodes) && IsLink(nodes, link) && p in Graft(nodes, link, copy)
    requires p != [] && !(link < p)
    ensures IsDirectory(Graft(nodes, link, copy), Parent(p)) && p[|p| - 1] != UP
  {
    hide Graft, WellFormed;
    GraftLookup(nodes, link, copy);
    assert link <= p ==> p == link;
    HasParent(nodes, p);
    assert Parent(p) != link;
  }

  // ---- What the loop keeps for the links still to come ----

  lemma OutsideLinkLeadsBefore(nodes: Nodes, link: Path, source: Path, copy: Nodes, p: Path, y: Path) returns (x: Path)
    requires GraftsCopy(nodes, link, source, copy) && IsLink(nodes, p) && p != link
    requires LeadsTo(Graft(nodes, link, copy), Base(nodes, p), nodes[p].target, y)
    ensures LeadsTo(nodes, Base(nodes, p), nodes[p].target, x) && Matches(nodes, link, source, y, x)
    ensures y in Graft(nodes, link, copy) && x in nodes && Graft(nodes, link, copy)[y] == nodes[x]
  {
    hide Graft, Walk, IsCopy, GraftsCopy, Matches, Followable;
    var base := Base(nodes, p);
    BaseIsOutside(nodes, link, source, copy, p);
    var depth: nat :| Walk(Graft(nodes, link, copy), base, nodes[p].target, depth) == Some(y);
    x := WalkBeforeGraft(nodes, link, source, copy, base, base, nodes[p].target, depth);
    MatchingNodes(nodes, link, source, copy, y, x);
  }

  lemma FollowedAfter(nodes: Nodes, link: Path, source: Path, copy: Nodes, p: Path)
    requires GraftsCopy(nodes, link, source, copy) && IsLink(nodes, p) && p != link && Followed(nodes, p)
    ensures exists y :: LeadsTo(Graft(nodes, link, copy), Base(nodes, p), nodes[p].target, y)
  {
    hide Graft, Walk, IsCopy, GraftsCopy, Matches, Followable;
    var base := Base(nodes, p);
    BaseIsOutside(nodes, link, source, copy, p);
    var x :| LeadsTo(nodes, base, nodes[p].target, x);
    var depth: nat :| Walk(nodes, base, nodes[p].target, depth) == Some(x);
    var y := WalkAfterGraft(nodes, link, source, copy, base, base, nodes[p].target, depth);
  }

  lemma {:induction false} ClimbsInPlaceAfter(nodes: Nodes, link: Path, source: Path, copy: Nodes,
                                              y: Path, components: seq<string>)
    requires GraftsCopy(nodes, link, source, copy) && IsDirectory(nodes, y) && !(link <= y)
    requires ClimbsInPlace(nodes, y, components)
    ensures ClimbsInPlace(Graft(nodes, link, copy), y, components)
    decreases |components|
  {
    hide Graft, LeadsTo, WellFormed, IsCopy, LinksClimbInPlace, Matches;
    var after := Graft(nodes, link, copy);
    if components != [] {
      var c, rest := components[0], components[1..];
      var next := y + [c];
      assert Parent(next) == y;
      if c == UP {
        ParentOutsideCopy(nodes, link, y);
        ClimbsInPlaceAfter(nodes, link, source, copy, Parent(y), rest);
      } else if next == link {
        SourceMatchesLink(nodes, link, source, copy);
        MatchingNodes(nodes, link, source, copy, link, source);
        assert StepsTo(nodes, y, c, source);
        if IsDirectory(after, link) {
          NamesClimbInPlace(after, link, rest);
        }
      } else {
        EntryOutsideCopy(nodes, link, source, copy, y, c);
        if IsLink(nodes, next) {
          forall m' | UP in rest && StepsTo(after, y, c, m')
            ensures !IsDirectory(after, m')
          {
            var m := OutsideLinkLeadsBefore(nodes, link, source, copy, next, m');
            assert StepsTo(nodes, y, c, m);
          }
        } else if IsDirectory(nodes, next) {
          ClimbsInPlaceAfter(nodes, link, source, copy, next, rest);
        }
      }
    }
  }

  /** One replacement keeps the conditions under which the following ones are right. */
  lemma GraftKeepsLinks(nodes: Nodes, link: Path, source: Path, copy: Nodes)
    requires GraftsCopy(nodes, link, source, copy) && TreeShaped(copy)
    ensures NoDanglingLinks(nodes) ==> NoDanglingLinks(Graft(nodes, link, copy))
    ensures LinksClimbInPlace(nodes) ==> LinksClimbInPlace(Graft(nodes, link, copy))
    ensures NoOwnParentLinks(nodes) ==> NoOwnParentLinks(Graft(nodes, link, copy))
  {
    hide Graft, WellFormed, Walk, IsCopy, ClimbsInPlace, LeadsTo, TreeShaped;
    var after := Graft(nodes, link, copy);
    GraftedLinks(nodes, link, copy);
    forall p | IsLink(after, p)
      ensures NoDanglingLinks(nodes) ==> Followed(after, p)
      ensures LinksClimbInPlace(nodes) ==> ClimbsInPlace(after, Base(after, p), after[p].target)
      ensures NoOwnParentLinks(nodes) ==> !LeadsTo(after, Base(after, p), after[p].target, Parent(p))
    {
      assert Base(after, p) == Base(nodes, p) && after[p].target == nodes[p].target;
      if NoDanglingLinks(nodes) {
        FollowedAfter(nodes, link, source, copy, p);
      }
      if LinksClimbInPlace(nodes) {
        BaseIsOutside(nodes, link, source, copy, p);
        BaseIsDirectory(nodes, link, p);
        ClimbsInPlaceAfter(nodes, link, source, copy, Base(nodes, p), nodes[p].target);
      }
      if NoOwnParentLinks(nodes) && LeadsTo(after, Base(nodes, p), nodes[p].target, Parent(p)) {
        BaseIsDirectory(nodes, link, p);
        var x := OutsideLinkLeadsBefore(nodes, link, source, copy, p, Parent(p));
      }
    }
  }

  lemma BaseIsDirectory(nodes: Nodes, link: Path, p: Path)
    requires WellFormed(nodes) && IsLink(nodes, link) && IsLink(nodes, p) && !(link <= p)
    ensures IsDirectory(nodes, Base(nodes, p)) && !(link <= Base(nodes, p)) && !(link <= Parent(p))
  {
    RootIsNoLink(nodes, link);
    RootIsNoLink(nodes, p);
    HasParent(nodes, p);
    RootIsDirectory(nodes);
    assert |link| <= |Parent(p)| ==> p[..|link|] == Parent(p)[..|link|];
  }
}
