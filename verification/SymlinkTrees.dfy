/** Trees of files, directories and symbolic links: what a path in an installed
    package means, and what the packaging code resolves it to. */
module SymlinkTrees {
  import opened Wrappers

  /** Path components below the package root, which is the empty path. */
  type Path = seq<string>

  const UP := ".."

  datatype Node =
    | File(content: string)
    | Directory
    | Link(absolute: bool, target: seq<string>)

  type Nodes = map<Path, Node>

  function Parent(p: Path): Path {
    if p == [] then [] else p[..|p| - 1]
  }

  predicate IsDirectory(nodes: Nodes, p: Path) {
    p in nodes && nodes[p].Directory?
  }

  predicate IsLink(nodes: Nodes, p: Path) {
    p in nodes && nodes[p].Link?
  }

  /** A tree: everything but the root lies in a directory. */
  ghost predicate WellFormed(nodes: Nodes) {
    && IsDirectory(nodes, [])
    && (forall p :: p in nodes && p != [] ==> IsDirectory(nodes, Parent(p)) && p[|p| - 1] != UP)
  }

  /** Where a link's own target starts: absolute targets are rebased on the package root. */
  function Base(nodes: Nodes, link: Path): Path
    requires IsLink(nodes, link)
  {
    if nodes[link].absolute then [] else Parent(link)
  }

  // ---- What a path means once the package is installed ----

  /** Follows the components from a directory, entering every link on the way. A component can
      only be looked up in a directory; `depth` bounds the nesting of links. */
  function Walk(nodes: Nodes, at: Path, components: seq<string>, depth: nat): Option<Path>
    decreases depth, |components|
  {
    if components == [] then Some(at)
    else if !IsDirectory(nodes, at) then None
    else if components[0] == UP then Walk(nodes, Parent(at), components[1..], depth)
    else
      var next := at + [components[0]];
      if next !in nodes then None
      else if !nodes[next].Link? then Walk(nodes, next, components[1..], depth)
      else if depth == 0 then None
      else
        var entered := Walk(nodes, if nodes[next].absolute then [] else at, nodes[next].target, depth - 1);
        if entered.None? then None else Walk(nodes, entered.value, components[1..], depth)
  }

  ghost predicate LeadsTo(nodes: Nodes, at: Path, components: seq<string>, to: Path) {
    exists depth: nat :: Walk(nodes, at, components, depth) == Some(to)
  }

  /** Reading the path yields the content. */
  ghost predicate Reads(nodes: Nodes, p: Path, content: string) {
    exists to :: LeadsTo(nodes, [], p, to) && to in nodes && nodes[to] == File(content)
  }

  /** Every path of plain names reads the same. */
  ghost predicate SameReads(a: Nodes, b: Nodes) {
    forall p, c :: UP !in p ==> (Reads(a, p, c) <==> Reads(b, p, c))
  }

  lemma {:induction false} DeeperWalk(nodes: Nodes, at: Path, components: seq<string>, depth: nat, more: nat)
    requires depth <= more && Walk(nodes, at, components, depth).Some?
    ensures Walk(nodes, at, components, more) == Walk(nodes, at, components, depth)
    decreases depth, |components|
  {
    if components != [] && components[0] == UP {
      DeeperWalk(nodes, Parent(at), components[1..], depth, more);
    } else if components != [] {
      var next := at + [components[0]];
      if nodes[next].Link? {
        var base := if nodes[next].absolute then [] else at;
        DeeperWalk(nodes, base, nodes[next].target, depth - 1, more - 1);
        DeeperWalk(nodes, Walk(nodes, base, nodes[next].target, depth - 1).value, components[1..], depth, more);
      } else {
        DeeperWalk(nodes, next, components[1..], depth, more);
      }
    }
  }

  lemma WalkNil(nodes: Nodes, at: Path, depth: nat)
    ensures Walk(nodes, at, [], depth) == Some(at)
  {
  }

  /** A step up, or to anything but a link. */
  lemma WalkOn(nodes: Nodes, at: Path, components: seq<string>, depth: nat)
    requires components != [] && IsDirectory(nodes, at)
    requires components[0] != UP ==> at + [components[0]] in nodes && !IsLink(nodes, at + [components[0]])
    ensures Walk(nodes, at, components, depth)
            == Walk(nodes, if components[0] == UP then Parent(at) else at + [components[0]], components[1..], depth)
  {
  }

  lemma WalkThroughLink(nodes: Nodes, at: Path, components: seq<string>, mid: Path, to: Path, inner: nat, outer: nat)
    requires components != [] && components[0] != UP && IsDirectory(nodes, at)
    requires IsLink(nodes, at + [components[0]])
    requires var link := nodes[at + [components[0]]];
             Walk(nodes, if link.absolute then [] else at, link.target, inner) == Some(mid)
    requires Walk(nodes, mid, components[1..], outer) == Some(to)
    ensures Walk(nodes, at, components, inner + outer + 1) == Some(to)
  {
    var link := nodes[at + [components[0]]];
    DeeperWalk(nodes, if link.absolute then [] else at, link.target, inner, inner + outer);
    DeeperWalk(nodes, mid, components[1..], outer, inner + outer + 1);
  }

  // ---- What the code resolves ----

  datatype Resolution = At(path: Path) | Escapes | Endless

  /** `Path.resolve()` below the package root: `..` is taken lexically, missing components are kept,
      an absolute link on the way leaves the package, and a link met while it is being resolved
      is a loop. */
  function Resolve(nodes: Nodes, at: Path, components: seq<string>, active: set<Path>): Resolution
    decreases nodes.Keys - active, |components|
  {
    if components == [] then At(at)
    else if components[0] == UP then
      if at == [] then Escapes else Resolve(nodes, Parent(at), components[1..], active)
    else
      var next := at + [components[0]];
      if !IsLink(nodes, next) then Resolve(nodes, next, components[1..], active)
      else if nodes[next].absolute then Escapes
      else if next in active then Endless
      else
        assert next in nodes.Keys - active && next !in nodes.Keys - (active + {next});
        var entered := Resolve(nodes, at, nodes[next].target, active + {next});
        if !entered.At? then entered else Resolve(nodes, entered.path, components[1..], active)
  }

  /** Every step upwards that the resolution takes starts from a directory. */
  predicate ClimbsFromDirectories(nodes: Nodes, at: Path, components: seq<string>, active: set<Path>)
    decreases nodes.Keys - active, |components|
  {
    components == [] ||
    if components[0] == UP then
      IsDirectory(nodes, at) && (at == [] || ClimbsFromDirectories(nodes, Parent(at), components[1..], active))
    else
      var next := at + [components[0]];
      if !IsLink(nodes, next) then ClimbsFromDirectories(nodes, next, components[1..], active)
      else if nodes[next].absolute || next in active then true
      else
        assert next in nodes.Keys - active && next !in nodes.Keys - (active + {next});
        && ClimbsFromDirectories(nodes, at, nodes[next].target, active + {next})
        && var entered := Resolve(nodes, at, nodes[next].target, active + {next});
           entered.At? ==> ClimbsFromDirectories(nodes, entered.path, components[1..], active)
  }

  /** Below anything but a directory nothing exists. */
  lemma {:induction false} NothingBelow(nodes: Nodes, at: Path, components: seq<string>, active: set<Path>)
    requires WellFormed(nodes) && !IsDirectory(nodes, at) && components != []
    requires ClimbsFromDirectories(nodes, at, components, active)
    ensures Resolve(nodes, at, components, active).At?
    ensures Resolve(nodes, at, components, active).path !in nodes
    decreases |components|
  {
    var next := at + [components[0]];
    assert Parent(next) == at;
    if |components| > 1 {
      NothingBelow(nodes, next, components[1..], active);
    } else {
      assert components[1..] == [];
    }
  }

  /** A resolution that goes on to an existing node comes through existing nodes. */
  lemma ExistsOnTheWay(nodes: Nodes, at: Path, components: seq<string>, active: set<Path>)
    requires WellFormed(nodes) && ClimbsFromDirectories(nodes, at, components, active)
    requires var r := Resolve(nodes, at, components, active); r.At? && r.path in nodes
    ensures at in nodes && (components != [] ==> IsDirectory(nodes, at))
  {
    if components != [] && !IsDirectory(nodes, at) {
      NothingBelow(nodes, at, components, active);
    }
  }

  /** Where a resolution goes on after a first component that is not a link. */
  lemma ResolvePlain(nodes: Nodes, at: Path, components: seq<string>, active: set<Path>) returns (next: Path)
    requires WellFormed(nodes) && ClimbsFromDirectories(nodes, at, components, active) && components != []
    requires components[0] != UP ==> !IsLink(nodes, at + [components[0]])
    requires var r := Resolve(nodes, at, components, active); r.At? && r.path in nodes
    ensures next == if components[0] == UP then Parent(at) else at + [components[0]]
    ensures Resolve(nodes, next, components[1..], active) == Resolve(nodes, at, components, active)
    ensures ClimbsFromDirectories(nodes, next, components[1..], active)
    ensures IsDirectory(nodes, at) && next in nodes
  {
    ExistsOnTheWay(nodes, at, components, active);
    if components[0] == UP {
      return Parent(at);
    }
    next := at + [components[0]];
    ExistsOnTheWay(nodes, next, components[1..], active);
  }

  /** Where a resolution goes on after a link. */
  lemma ResolveEntered(nodes: Nodes, at: Path, components: seq<string>, active: set<Path>) returns (mid: Path)
    requires WellFormed(nodes) && ClimbsFromDirectories(nodes, at, components, active)
    requires components != [] && components[0] != UP && IsLink(nodes, at + [components[0]])
    requires var r := Resolve(nodes, at, components, active); r.At? && r.path in nodes
    ensures var next := at + [components[0]];
            && !nodes[next].absolute && next !in active
            && ClimbsFromDirectories(nodes, at, nodes[next].target, active + {next})
            && Resolve(nodes, at, nodes[next].target, active + {next}) == At(mid)
    ensures Resolve(nodes, mid, components[1..], active) == Resolve(nodes, at, components, active)
    ensures ClimbsFromDirectories(nodes, mid, components[1..], active)
    ensures IsDirectory(nodes, at) && mid in nodes
  {
    var next := at + [components[0]];
    ExistsOnTheWay(nodes, at, components, active);
    mid := Resolve(nodes, at, nodes[next].target, active + {next}).path;
    ExistsOnTheWay(nodes, mid, components[1..], active);
  }

  // ---- Meaning without leaving the package ----

  /** The walk, as long as it neither enters an absolute link nor steps up from the package root. */
  function InnerWalk(nodes: Nodes, at: Path, components: seq<string>, depth: nat): Option<Path>
    decreases depth, |components|
  {
    if components == [] then Some(at)
    else if !IsDirectory(nodes, at) then None
    else if components[0] == UP then
      if at == [] then None else InnerWalk(nodes, Parent(at), components[1..], depth)
    else
      var next := at + [components[0]];
      if next !in nodes then None
      else if !nodes[next].Link? then InnerWalk(nodes, next, components[1..], depth)
      else if depth == 0 || nodes[next].absolute then None
      else
        var entered := InnerWalk(nodes, at, nodes[next].target, depth - 1);
        if entered.None? then None else InnerWalk(nodes, entered.value, components[1..], depth)
  }

  ghost predicate LeadsInside(nodes: Nodes, at: Path, components: seq<string>, to: Path) {
    exists depth: nat :: InnerWalk(nodes, at, components, depth) == Some(to)
  }

  lemma {:induction false} InnerWalkIsWalk(nodes: Nodes, at: Path, components: seq<string>, depth: nat)
    requires InnerWalk(nodes, at, components, depth).Some?
    ensures Walk(nodes, at, components, depth) == InnerWalk(nodes, at, components, depth)
    decreases depth, |components|
  {
    if components != [] && components[0] == UP {
      InnerWalkIsWalk(nodes, Parent(at), components[1..], depth);
    } else if components != [] {
      var next := at + [components[0]];
      if nodes[next].Link? {
        InnerWalkIsWalk(nodes, at, nodes[next].target, depth - 1);
        InnerWalkIsWalk(nodes, InnerWalk(nodes, at, nodes[next].target, depth - 1).value, components[1..], depth);
      } else {
        InnerWalkIsWalk(nodes, next, components[1..], depth);
      }
    }
  }

  lemma {:induction false} DeeperInnerWalk(nodes: Nodes, at: Path, components: seq<string>, depth: nat, more: nat)
    requires depth <= more && InnerWalk(nodes, at, components, depth).Some?
    ensures InnerWalk(nodes, at, components, more) == InnerWalk(nodes, at, components, depth)
    decreases depth, |components|
  {
    if components != [] && components[0] == UP {
      DeeperInnerWalk(nodes, Parent(at), components[1..], depth, more);
    } else if components != [] {
      var next := at + [components[0]];
      if nodes[next].Link? {
        DeeperInnerWalk(nodes, at, nodes[next].target, depth - 1, more - 1);
        var entered := InnerWalk(nodes, at, nodes[next].target, depth - 1).value;
        DeeperInnerWalk(nodes, entered, components[1..], depth, more);
      } else {
        DeeperInnerWalk(nodes, next, components[1..], depth, more);
      }
    }
  }

  lemma InnerWalkThroughLink(nodes: Nodes, at: Path, components: seq<string>, mid: Path, to: Path, inner: nat, outer: nat)
    requires components != [] && components[0] != UP && IsDirectory(nodes, at)
    requires IsLink(nodes, at + [components[0]]) && !nodes[at + [components[0]]].absolute
    requires InnerWalk(nodes, at, nodes[at + [components[0]]].target, inner) == Some(mid)
    requires InnerWalk(nodes, mid, components[1..], outer) == Some(to)
    ensures InnerWalk(nodes, at, components, inner + outer + 1) == Some(to)
  {
    DeeperInnerWalk(nodes, at, nodes[at + [components[0]]].target, inner, inner + outer);
    DeeperInnerWalk(nodes, mid, components[1..], outer, inner + outer + 1);
  }

  /** A step up from below the root, or to anything but a link. */
  lemma InnerWalkOn(nodes: Nodes, at: Path, components: seq<string>, depth: nat)
    requires components != [] && IsDirectory(nodes, at)
    requires if components[0] == UP then at != []
             else at + [components[0]] in nodes && !IsLink(nodes, at + [components[0]])
    ensures InnerWalk(nodes, at, components, depth)
            == InnerWalk(nodes, if components[0] == UP then Parent(at) else at + [components[0]], components[1..], depth)
  {
  }

  /** A resolution that ends at an existing node and climbs from directories only is where the path leads
      inside the package. */
  lemma {:induction false} ResolveLeadsInside(nodes: Nodes, at: Path, components: seq<string>, active: set<Path>)
      returns (depth: nat)
    requires WellFormed(nodes) && ClimbsFromDirectories(nodes, at, components, active)
    requires var r := Resolve(nodes, at, components, active); r.At? && r.path in nodes
    ensures InnerWalk(nodes, at, components, depth) == Some(Resolve(nodes, at, components, active).path)
    decreases nodes.Keys - active, |components|
  {
    hide WellFormed, ClimbsFromDirectories;
    if components == [] {
      depth := 0;
    } else if components[0] != UP && IsLink(nodes, at + [components[0]]) {
      hide Resolve, InnerWalk;
      var mid := ResolveEntered(nodes, at, components, active);
      var next := at + [components[0]];
      assert next in nodes.Keys - active && next !in nodes.Keys - (active + {next});
      var inner := ResolveLeadsInside(nodes, at, nodes[next].target, active + {next});
      var outer := ResolveLeadsInside(nodes, mid, components[1..], active);
      depth := inner + outer + 1;
      InnerWalkThroughLink(nodes, at, components, mid, Resolve(nodes, at, components, active).path, inner, outer);
    } else {
      assert components[0] == UP ==> at != [];
      hide Resolve, InnerWalk;
      var next := ResolvePlain(nodes, at, components, active);
      depth := ResolveLeadsInside(nodes, next, components[1..], active);
      InnerWalkOn(nodes, at, components, depth);
    }
  }

  lemma ResolveFollowsMeaning(nodes: Nodes, at: Path, components: seq<string>, active: set<Path>)
      returns (depth: nat)
    requires WellFormed(nodes) && ClimbsFromDirectories(nodes, at, components, active)
    requires var r := Resolve(nodes, at, components, active); r.At? && r.path in nodes
    ensures Walk(nodes, at, components, depth) == Some(Resolve(nodes, at, components, active).path)
  {
    hide *;
    depth := ResolveLeadsInside(nodes, at, components, active);
    InnerWalkIsWalk(nodes, at, components, depth);
  }

  /** The least depth with which the walk succeeds. */
  lemma {:induction false} LeastDepth(nodes: Nodes, at: Path, components: seq<string>, depth: nat) returns (least: nat)
    requires InnerWalk(nodes, at, components, depth).Some?
    ensures least <= depth
    ensures InnerWalk(nodes, at, components, least) == InnerWalk(nodes, at, components, depth)
    ensures least > 0 ==> InnerWalk(nodes, at, components, least - 1).None?
    decreases depth
  {
    hide InnerWalk;
    least := depth;
    if depth > 0 && InnerWalk(nodes, at, components, depth - 1).Some? {
      DeeperInnerWalk(nodes, at, components, depth - 1, depth);
      least := LeastDepth(nodes, at, components, depth - 1);
    }
  }

  /** With less than this depth the link cannot be entered. */
  predicate TooDeep(nodes: Nodes, link: Path, depth: nat) {
    IsLink(nodes, link) && (depth > 0 ==> InnerWalk(nodes, Parent(link), nodes[link].target, depth - 1).None?)
  }

  /** What a path means inside the package is what it is resolved to: the links that are being
      resolved are not met again, because their own walks need more depth than is left. */
  lemma {:induction false} MeaningIsResolved(nodes: Nodes, at: Path, components: seq<string>, active: set<Path>, depth: nat)
    requires InnerWalk(nodes, at, components, depth).Some?
    requires forall a :: a in active ==> TooDeep(nodes, a, depth)
    ensures Resolve(nodes, at, components, active) == At(InnerWalk(nodes, at, components, depth).value)
    decreases depth, |components|
  {
    if components != [] {
      var next, rest := at + [components[0]], components[1..];
      assert Parent(next) == at;
      if components[0] == UP {
        MeaningIsResolved(nodes, Parent(at), rest, active, depth);
      } else if !IsLink(nodes, next) {
        MeaningIsResolved(nodes, next, rest, active, depth);
      } else {
        var target := nodes[next].target;
        assert next !in active by {
          assert !TooDeep(nodes, next, depth);
        }
        var least := LeastDepth(nodes, at, target, depth - 1);
        forall a | a in active + {next}
          ensures TooDeep(nodes, a, least)
        {
          if a != next && least > 0 && InnerWalk(nodes, Parent(a), nodes[a].target, least - 1).Some? {
            DeeperInnerWalk(nodes, Parent(a), nodes[a].target, least - 1, depth - 1);
          }
        }
        MeaningIsResolved(nodes, at, target, active + {next}, least);
        MeaningIsResolved(nodes, InnerWalk(nodes, at, target, depth - 1).value, rest, active, depth);
      }
    }
  }

  lemma ParentInTree(nodes: Nodes, at: Path)
    requires WellFormed(nodes) && at in nodes
    ensures Parent(at) in nodes
  {
    if at != [] {
      HasParent(nodes, at);
    }
  }

  lemma {:induction false} InnerWalkEndsInTree(nodes: Nodes, at: Path, components: seq<string>, depth: nat)
    requires WellFormed(nodes) && at in nodes && InnerWalk(nodes, at, components, depth).Some?
    ensures InnerWalk(nodes, at, components, depth).value in nodes
    decreases depth, |components|
  {
    hide WellFormed;
    if components != [] {
      var next, rest := at + [components[0]], components[1..];
      if components[0] == UP {
        ParentInTree(nodes, at);
        InnerWalkEndsInTree(nodes, Parent(at), rest, depth);
      } else if !nodes[next].Link? {
        InnerWalkEndsInTree(nodes, next, rest, depth);
      } else {
        InnerWalkEndsInTree(nodes, at, nodes[next].target, depth - 1);
        InnerWalkEndsInTree(nodes, InnerWalk(nodes, at, nodes[next].target, depth - 1).value, rest, depth);
      }
    }
  }

  /** A path leads somewhere inside the package exactly if the code finds a node there and steps up from
      directories only on the way. */
  lemma FoundInsideExactly(nodes: Nodes, at: Path, components: seq<string>, x: Path)
    requires WellFormed(nodes) && at in nodes
    ensures LeadsInside(nodes, at, components, x) <==>
              && Resolve(nodes, at, components, {}) == At(x) && x in nodes
              && ClimbsFromDirectories(nodes, at, components, {})
  {
    hide WellFormed, InnerWalk, Resolve, ClimbsFromDirectories;
    if LeadsInside(nodes, at, components, x) {
      var depth: nat :| InnerWalk(nodes, at, components, depth) == Some(x);
      MeaningIsResolved(nodes, at, components, {}, depth);
      InnerWalkEndsInTree(nodes, at, components, depth);
      InnerWalkIsWalk(nodes, at, components, depth);
      MeaningClimbs(nodes, at, components, {}, depth);
    }
    if Resolve(nodes, at, components, {}) == At(x) && x in nodes && ClimbsFromDirectories(nodes, at, components, {}) {
      var depth := ResolveLeadsInside(nodes, at, components, {});
    }
  }

  lemma LeadsInsideLeads(nodes: Nodes, at: Path, components: seq<string>, x: Path)
    requires LeadsInside(nodes, at, components, x)
    ensures LeadsTo(nodes, at, components, x)
  {
    var depth: nat :| InnerWalk(nodes, at, components, depth) == Some(x);
    InnerWalkIsWalk(nodes, at, components, depth);
  }

  /** A path that means something is resolved without climbing from anything but a directory, and to
      nowhere else. */
  lemma {:induction false} MeaningClimbs(nodes: Nodes, at: Path, components: seq<string>, active: set<Path>, depth: nat)
    requires Walk(nodes, at, components, depth).Some?
    ensures ClimbsFromDirectories(nodes, at, components, active)
    ensures var r := Resolve(nodes, at, components, active);
            r.At? ==> Walk(nodes, at, components, depth) == Some(r.path)
    decreases depth, |components|
  {
    if components != [] {
      var rest := components[1..];
      if components[0] == UP {
        MeaningClimbs(nodes, Parent(at), rest, active, depth);
      } else {
        var next := at + [components[0]];
        if !IsLink(nodes, next) {
          MeaningClimbs(nodes, next, rest, active, depth);
        } else if !nodes[next].absolute && next !in active {
          MeaningClimbs(nodes, at, nodes[next].target, active + {next}, depth - 1);
          MeaningClimbs(nodes, Walk(nodes, at, nodes[next].target, depth - 1).value, rest, active, depth);
        }
      }
    }
  }

  /** Where the code finds a node, the path leads there in the installed package exactly if the resolution
      climbs from directories only; otherwise the path leads nowhere. */
  lemma ResolutionIsMeaningExactly(nodes: Nodes, at: Path, components: seq<string>)
    requires WellFormed(nodes)
    requires var r := Resolve(nodes, at, components, {}); r.At? && r.path in nodes
    ensures var r := Resolve(nodes, at, components, {});
            var climbs := ClimbsFromDirectories(nodes, at, components, {});
            && (climbs ==> forall x :: LeadsTo(nodes, at, components, x) <==> x == r.path)
            && (!climbs ==> forall x :: !LeadsTo(nodes, at, components, x))
  {
    hide Walk, Resolve, ClimbsFromDirectories;
    var to := Resolve(nodes, at, components, {}).path;
    if ClimbsFromDirectories(nodes, at, components, {}) {
      var depth := ResolveFollowsMeaning(nodes, at, components, {});
      assert LeadsTo(nodes, at, components, to);
    }
    forall x | LeadsTo(nodes, at, components, x)
      ensures ClimbsFromDirectories(nodes, at, components, {}) && x == to
    {
      var depth: nat :| Walk(nodes, at, components, depth) == Some(x);
      MeaningClimbs(nodes, at, components, {}, depth);
    }
  }

  // ---- Leading somewhere, step by step ----

  lemma LeadsNowhereElse(nodes: Nodes, at: Path, components: seq<string>, x: Path, y: Path)
    requires LeadsTo(nodes, at, components, x) && LeadsTo(nodes, at, components, y)
    ensures x == y
  {
    hide Walk;
    var d: nat :| Walk(nodes, at, components, d) == Some(x);
    var e: nat :| Walk(nodes, at, components, e) == Some(y);
    DeeperWalk(nodes, at, components, d, d + e);
    DeeperWalk(nodes, at, components, e, d + e);
  }

  /** Where one component leads. */
  ghost predicate StepsTo(nodes: Nodes, at: Path, c: string, to: Path) {
    && IsDirectory(nodes, at)
    && if c == UP then to == Parent(at)
       else if IsLink(nodes, at + [c]) then
         var link := nodes[at + [c]];
         LeadsTo(nodes, if link.absolute then [] else at, link.target, to)
       else at + [c] in nodes && to == at + [c]
  }

  lemma LeadsOn(nodes: Nodes, at: Path, components: seq<string>, mid: Path, to: Path)
    requires components != [] && StepsTo(nodes, at, components[0], mid) && LeadsTo(nodes, mid, components[1..], to)
    ensures LeadsTo(nodes, at, components, to)
  {
    var outer: nat :| Walk(nodes, mid, components[1..], outer) == Some(to);
    var next := at + [components[0]];
    if components[0] != UP && IsLink(nodes, next) {
      var link := nodes[next];
      var inner: nat :| Walk(nodes, if link.absolute then [] else at, link.target, inner) == Some(mid);
      WalkThroughLink(nodes, at, components, mid, to, inner, outer);
    } else {
      assert Walk(nodes, at, components, outer) == Some(to);
    }
  }

  /** The place after the first component of a walk. */
  function FirstStep(nodes: Nodes, at: Path, components: seq<string>, depth: nat): (mid: Path)
    requires components != [] && Walk(nodes, at, components, depth).Some?
    ensures Walk(nodes, mid, components[1..], depth) == Walk(nodes, at, components, depth)
    ensures StepsTo(nodes, at, components[0], mid)
  {
    var next := at + [components[0]];
    if components[0] == UP then Parent(at)
    else if nodes[next].Link? then
      Walk(nodes, if nodes[next].absolute then [] else at, nodes[next].target, depth - 1).value
    else next
  }

  lemma LeadsNil(nodes: Nodes, at: Path)
    ensures LeadsTo(nodes, at, [], at)
    ensures forall to :: LeadsTo(nodes, at, [], to) ==> to == at
  {
    assert Walk(nodes, at, [], 0) == Some(at);
  }

  lemma StepIsUnique(nodes: Nodes, at: Path, c: string, x: Path, y: Path)
    requires StepsTo(nodes, at, c, x) && StepsTo(nodes, at, c, y)
    ensures x == y
  {
    hide LeadsTo;
    if c != UP && IsLink(nodes, at + [c]) {
      var link := nodes[at + [c]];
      LeadsNowhereElse(nodes, if link.absolute then [] else at, link.target, x, y);
    }
  }

  lemma {:induction false} LeadsAppend(nodes: Nodes, at: Path, s: seq<string>, mid: Path, c: string, to: Path)
    requires LeadsTo(nodes, at, s, mid) && StepsTo(nodes, mid, c, to)
    ensures LeadsTo(nodes, at, s + [c], to)
    decreases |s|
  {
    hide StepsTo, Walk;
    if s == [] {
      LeadsNil(nodes, at);
      LeadsNil(nodes, to);
      assert [c][1..] == [];
      LeadsOn(nodes, at, [c], to, to);
      assert s + [c] == [c];
    } else {
      var depth: nat :| Walk(nodes, at, s, depth) == Some(mid);
      var first := FirstStep(nodes, at, s, depth);
      assert LeadsTo(nodes, first, s[1..], mid);
      LeadsAppend(nodes, first, s[1..], mid, c, to);
      assert (s + [c])[1..] == s[1..] + [c];
      LeadsOn(nodes, at, s + [c], first, to);
    }
  }

  lemma {:induction false} LeadsByLast(nodes: Nodes, at: Path, s: seq<string>, c: string, mid: Path, to: Path)
    requires LeadsTo(nodes, at, s, mid) && LeadsTo(nodes, at, s + [c], to)
    ensures StepsTo(nodes, mid, c, to)
    decreases |s|
  {
    hide StepsTo, Walk;
    var whole := s + [c];
    var depth: nat :| Walk(nodes, at, whole, depth) == Some(to);
    var first := FirstStep(nodes, at, whole, depth);
    assert LeadsTo(nodes, first, whole[1..], to);
    if s == [] {
      LeadsNil(nodes, at);
      assert whole[1..] == [];
      LeadsNil(nodes, first);
    } else {
      var e: nat :| Walk(nodes, at, s, e) == Some(mid);
      var first' := FirstStep(nodes, at, s, e);
      StepIsUnique(nodes, at, s[0], first, first');
      assert LeadsTo(nodes, first, s[1..], mid);
      assert whole[1..] == s[1..] + [c];
      LeadsByLast(nodes, first, s[1..], c, mid, to);
    }
  }

  lemma {:induction false} NoWalkEndsAtALink(nodes: Nodes, at: Path, components: seq<string>, depth: nat, link: Path)
    requires WellFormed(nodes) && IsLink(nodes, link) && at != link
    ensures Walk(nodes, at, components, depth) != Some(link)
    decreases depth, |components|
  {
    hide WellFormed;
    if components != [] && IsDirectory(nodes, at) {
      var next, rest := at + [components[0]], components[1..];
      RootIsNoLink(nodes, link);
      if components[0] == UP {
        ParentIsNoLink(nodes, at, link);
        NoWalkEndsAtALink(nodes, Parent(at), rest, depth, link);
      } else if next in nodes && nodes[next].Link? && depth > 0 {
        var base := if nodes[next].absolute then [] else at;
        NoWalkEndsAtALink(nodes, base, nodes[next].target, depth - 1, link);
        var entered := Walk(nodes, base, nodes[next].target, depth - 1);
        if entered.Some? {
          NoWalkEndsAtALink(nodes, entered.value, rest, depth, link);
        }
      } else if next in nodes && !nodes[next].Link? {
        NoWalkEndsAtALink(nodes, next, rest, depth, link);
      }
    }
  }

  lemma RootIsNoLink(nodes: Nodes, link: Path)
    requires WellFormed(nodes) && IsLink(nodes, link)
    ensures link != []
  {
  }

  lemma ParentIsNoLink(nodes: Nodes, at: Path, link: Path)
    requires WellFormed(nodes) && IsDirectory(nodes, at) && IsLink(nodes, link)
    ensures Parent(at) != link
  {
  }

  lemma LeadsByFirst(nodes: Nodes, at: Path, s: seq<string>, x: Path) returns (first: Path)
    requires s != [] && LeadsTo(nodes, at, s, x)
    ensures StepsTo(nodes, at, s[0], first) && LeadsTo(nodes, first, s[1..], x)
  {
    var depth: nat :| Walk(nodes, at, s, depth) == Some(x);
    first := FirstStep(nodes, at, s, depth);
  }

  lemma StepNeedsEntry(nodes: Nodes, at: Path, c: string, to: Path)
    requires StepsTo(nodes, at, c, to) && c != UP
    ensures at + [c] in nodes
  {
  }

  lemma LeadsOnlyFromDirectories(nodes: Nodes, at: Path, s: seq<string>, x: Path)
    requires !IsDirectory(nodes, at) && LeadsTo(nodes, at, s, x)
    ensures s == [] && x == at
  {
    var depth: nat :| Walk(nodes, at, s, depth) == Some(x);
  }

  // ---- Real directories ----

  /** Real directories all the way down. */
  ghost predicate DownTo(nodes: Nodes, p: Path) {
    UP !in p && forall i :: 0 <= i <= |p| ==> IsDirectory(nodes, p[..i])
  }

  lemma {:induction false} DirectoryIsDownTo(nodes: Nodes, p: Path)
    requires WellFormed(nodes) && IsDirectory(nodes, p)
    ensures DownTo(nodes, p)
    decreases |p|
  {
    hide WellFormed;
    assert p[..|p|] == p;
    if p != [] {
      HasParent(nodes, p);
      var parent := Parent(p);
      DirectoryIsDownTo(nodes, parent);
      assert p == parent + [p[|p| - 1]];
      forall i | 0 <= i < |p|
        ensures IsDirectory(nodes, p[..i])
      {
        assert p[..i] == parent[..i];
      }
    }
  }

  lemma HasParent(nodes: Nodes, p: Path)
    requires WellFormed(nodes) && p in nodes && p != []
    ensures IsDirectory(nodes, Parent(p)) && p[|p| - 1] != UP
  {
  }

  lemma {:induction false} WalkDown(nodes: Nodes, p: Path, rest: seq<string>, depth: nat)
    requires DownTo(nodes, p)
    ensures Walk(nodes, [], p + rest, depth) == Walk(nodes, p, rest, depth)
    decreases |p|
  {
    if p == [] {
      assert p + rest == rest;
    } else {
      var k := |p| - 1;
      var parent, c := p[..k], p[k];
      forall i | 0 <= i <= k
        ensures IsDirectory(nodes, parent[..i])
      {
        assert parent[..i] == p[..i];
      }
      assert parent[..k] == parent && p[..k + 1] == p && parent + [c] == p && c in p;
      WalkDown(nodes, parent, [c] + rest, depth);
      assert parent + ([c] + rest) == p + rest;
      assert ([c] + rest)[1..] == rest;
      WalkOn(nodes, parent, [c] + rest, depth);
    }
  }

  lemma LeadsDown(nodes: Nodes, p: Path, rest: seq<string>)
    requires DownTo(nodes, p)
    ensures forall x :: LeadsTo(nodes, [], p + rest, x) <==> LeadsTo(nodes, p, rest, x)
  {
    hide Walk;
    forall depth: nat
      ensures Walk(nodes, [], p + rest, depth) == Walk(nodes, p, rest, depth)
    {
      WalkDown(nodes, p, rest, depth);
    }
  }

  /** A file that stands in the tree is read by its own path. */
  lemma StandingFileReads(nodes: Nodes, p: Path, content: string)
    requires WellFormed(nodes) && p in nodes && nodes[p] == File(content)
    ensures Reads(nodes, p, content)
  {
    hide WellFormed, DownTo, Walk;
    assert p != [] by {
      RootIsDirectory(nodes);
    }
    HasParent(nodes, p);
    var at, c := Parent(p), p[|p| - 1];
    assert p == at + [c];
    DirectoryIsDownTo(nodes, at);
    LeadsNil(nodes, p);
    assert [c][1..] == [];
    assert StepsTo(nodes, at, c, p);
    LeadsOn(nodes, at, [c], p, p);
    LeadsDown(nodes, at, [c]);
  }

  lemma RootIsDirectory(nodes: Nodes)
    requires WellFormed(nodes)
    ensures IsDirectory(nodes, [])
  {
  }
}
