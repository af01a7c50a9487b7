/** Copying the file or directory that a link leads to, as `shutil` does for
    scripts/ports.py: every link below it is followed. */
module SymlinkCopies {
  import opened Wrappers
  import opened SymlinkTrees
  import opened SymlinkGrafts

  function ChildNames(nodes: Nodes, at: Path, hidden: set<Path>): set<string> {
    set p | p in nodes && p != [] && Parent(p) == at && p !in hidden :: p[|p| - 1]
  }

  /** One directory entry, followed if it is a link. */
  function CopyEntry(nodes: Nodes, at: Path, c: string, limit: nat): Option<Nodes>
    decreases limit, 0
  {
    match Resolve(nodes, at, [c], {})
    case At(m) =>
      if m !in nodes then None
      else if nodes[m].File? then Some(map[[] := nodes[m]])
      else if limit == 0 then None
      else CopyTree(nodes, m, {}, limit - 1)
    case _ => None
  }

  /** The entries of a directory put together. */
  function EntryPaths(entries: map<string, Option<Nodes>>): set<Path> {
    set c, k | c in entries && entries[c].Some? && k in entries[c].value :: [c] + k
  }

  lemma EntryPath(entries: map<string, Option<Nodes>>, p: Path)
    requires p in EntryPaths(entries)
    ensures p != [] && p[0] in entries && entries[p[0]].Some? && p[1..] in entries[p[0]].value
  {
    var c, k :| c in entries && entries[c].Some? && k in entries[c].value && p == [c] + k;
    assert p[0] == c && p[1..] == k;
  }

  function EntryNode(entries: map<string, Option<Nodes>>, p: Path): Node
    requires p in EntryPaths(entries)
  {
    EntryPath(entries, p);
    entries[p[0]].value[p[1..]]
  }

  function Combine(entries: map<string, Option<Nodes>>): Nodes {
    map p | p in EntryPaths(entries) + {[]} :: if p in EntryPaths(entries) then EntryNode(entries, p) else Directory
  }

  /** `shutil.copytree(source, link, symlinks=False)`: the copy by relative path. It fails when an entry
      cannot be followed, and when directories nest deeper than the limit, as they do without end
      when a link leads back to a directory above it. */
  function CopyTree(nodes: Nodes, at: Path, hidden: set<Path>, limit: nat): Option<Nodes>
    decreases limit, 1
  {
    var entries := map c | c in ChildNames(nodes, at, hidden) :: CopyEntry(nodes, at, c, limit);
    if exists c :: c in entries && entries[c].None? then None else Some(Combine(entries))
  }

  lemma CombineLookup(entries: map<string, Option<Nodes>>)
    ensures [] in Combine(entries) && Combine(entries)[[]] == Directory
    ensures forall c, k :: [c] + k in Combine(entries) <==> c in entries && entries[c].Some? && k in entries[c].value
    ensures forall c, k :: [c] + k in Combine(entries) ==> Combine(entries)[[c] + k] == entries[c].value[k]
  {
    var all := Combine(entries);
    assert [] in all && all[[]] == Directory by {
      if [] in EntryPaths(entries) {
        EntryPath(entries, []);
      }
    }
    forall c, k
      ensures [c] + k in all <==> c in entries && entries[c].Some? && k in entries[c].value
      ensures [c] + k in all ==> all[[c] + k] == entries[c].value[k]
    {
      var p := [c] + k;
      assert p[0] == c && p[1..] == k;
      if p in all {
        EntryPath(entries, p);
      }
    }
  }

  // ---- A copy is a tree ----

  lemma {:induction false} CopyIsTree(nodes: Nodes, at: Path, hidden: set<Path>, limit: nat)
    requires WellFormed(nodes) && CopyTree(nodes, at, hidden, limit).Some?
    ensures TreeShaped(CopyTree(nodes, at, hidden, limit).value)
    ensures IsDirectory(CopyTree(nodes, at, hidden, limit).value, [])
    decreases limit, 1
  {
    hide TreeShaped, Combine, WellFormed;
    var entries := map c | c in ChildNames(nodes, at, hidden) :: CopyEntry(nodes, at, c, limit);
    CombineLookup(entries);
    forall c | c in entries
      ensures c != UP && entries[c].Some? && TreeShaped(entries[c].value)
    {
      assert entries[c].Some?;
      ChildNamesAreNames(nodes, at, hidden, c);
      EntryIsTree(nodes, at, c, limit);
    }
    CombinedIsTree(entries);
  }

  lemma ChildNamesAreNames(nodes: Nodes, at: Path, hidden: set<Path>, c: string)
    requires WellFormed(nodes) && c in ChildNames(nodes, at, hidden)
    ensures c != UP
  {
    var p :| p in nodes && p != [] && Parent(p) == at && p !in hidden && p[|p| - 1] == c;
    HasParent(nodes, p);
  }

  /** What a copied entry was copied from. */
  lemma EntryIsCopyOf(nodes: Nodes, at: Path, c: string, limit: nat)
    requires CopyEntry(nodes, at, c, limit).Some?
    ensures Resolve(nodes, at, [c], {}).At? && Resolve(nodes, at, [c], {}).path in nodes
    ensures var m := Resolve(nodes, at, [c], {}).path;
            if nodes[m].File? then CopyEntry(nodes, at, c, limit) == Some(map[[] := nodes[m]])
            else limit > 0 && CopyEntry(nodes, at, c, limit) == CopyTree(nodes, m, {}, limit - 1)
  {
    hide Resolve, CopyTree;
  }

  lemma {:induction false} EntryIsTree(nodes: Nodes, at: Path, c: string, limit: nat)
    requires WellFormed(nodes) && CopyEntry(nodes, at, c, limit).Some?
    ensures TreeShaped(CopyEntry(nodes, at, c, limit).value)
    decreases limit, 0
  {
    hide *;
    EntryIsCopyOf(nodes, at, c, limit);
    var m := Resolve(nodes, at, [c], {}).path;
    if nodes[m].File? {
      FileIsTree(nodes[m]);
    } else {
      CopyIsTree(nodes, m, {}, limit - 1);
    }
  }

  lemma TreeHasRoot(copy: Nodes)
    requires TreeShaped(copy)
    ensures [] in copy
  {
  }

  lemma FileIsTree(file: Node)
    requires file.File?
    ensures TreeShaped(map[[] := file])
  {
  }

  lemma CombinedIsTree(entries: map<string, Option<Nodes>>)
    requires forall c :: c in entries ==> c != UP && entries[c].Some? && TreeShaped(entries[c].value)
    ensures TreeShaped(Combine(entries))
  {
    hide Combine;
    CombineLookup(entries);
    hide TreeShaped;
    var all := Combine(entries);
    forall s | s in all && s != []
      ensures !all[s].Link? && IsDirectory(all, Parent(s)) && s[|s| - 1] != UP
    {
      assert s == [s[0]] + s[1..];
      CombinedHasParent(entries, s[0], s[1..]);
    }
    TreeShapedBy(all);
  }

  lemma TreeShapedBy(copy: Nodes)
    requires IsDirectory(copy, [])
    requires forall s :: s in copy && s != [] ==>
               !copy[s].Link? && IsDirectory(copy, Parent(s)) && s[|s| - 1] != UP
    ensures TreeShaped(copy)
  {
  }

  lemma CombinedHasParent(entries: map<string, Option<Nodes>>, c: string, k: Path)
    requires c in entries && c != UP && entries[c].Some? && TreeShaped(entries[c].value) && k in entries[c].value
    ensures var all, s := Combine(entries), [c] + k;
            s in all && !all[s].Link? && IsDirectory(all, Parent(s)) && s[|s| - 1] != UP
  {
    hide Combine;
    CombineLookup(entries);
    var s := [c] + k;
    assert Parent(s) == if k == [] then [] else [c] + Parent(k);
  }

  lemma FileIsItsCopy(nodes: Nodes, at: Path)
    requires at in nodes && nodes[at].File?
    ensures IsCopy(nodes, at, map[[] := nodes[at]])
  {
    hide LeadsTo;
    LeadsNil(nodes, at);
    forall s, x | UP !in s && LeadsTo(nodes, at, s, x)
      ensures s == [] && x == at
    {
      LeadsOnlyFromDirectories(nodes, at, s, x);
    }
  }

  // ---- A copy holds what the names lead to ----

  /** Names lead to a link below the directory, other than through what is hidden in it. */
  ghost predicate MeetsLink(nodes: Nodes, at: Path, hidden: set<Path>, s: Path, x: Path, c: string) {
    && UP !in s && c != UP && LeadsTo(nodes, at, s, x) && IsLink(nodes, x + [c])
    && at + [(s + [c])[0]] !in hidden
  }

  /** Every link met below the directory leads somewhere. */
  ghost predicate FollowedBelow(nodes: Nodes, at: Path, hidden: set<Path>) {
    forall s, x, c :: MeetsLink(nodes, at, hidden, s, x, c) ==> Followed(nodes, x + [c])
  }

  /** The names that stand in a directory are those a walk can take from it. */
  lemma ChildNamesAreSteps(nodes: Nodes, at: Path, hidden: set<Path>, c: string)
    requires WellFormed(nodes) && IsDirectory(nodes, at)
    ensures c in ChildNames(nodes, at, hidden) <==> c != UP && at + [c] in nodes && at + [c] !in hidden
  {
    var child := at + [c];
    assert child != [] && Parent(child) == at && child[|child| - 1] == c;
    if c in ChildNames(nodes, at, hidden) {
      var p :| p in nodes && p != [] && Parent(p) == at && p !in hidden && p[|p| - 1] == c;
      assert p == child;
    }
  }

  /** Following an entry is taking the step, if the entry leads anywhere. */
  lemma EntryIsStep(nodes: Nodes, at: Path, c: string, limit: nat)
    requires WellFormed(nodes) && IsDirectory(nodes, at) && c != UP && at + [c] in nodes
    requires CopyEntry(nodes, at, c, limit).Some?
    requires IsLink(nodes, at + [c]) ==> Followed(nodes, at + [c])
    ensures var r := Resolve(nodes, at, [c], {});
            r.At? && r.path in nodes && StepsTo(nodes, at, c, r.path)
  {
    EntryIsCopyOf(nodes, at, c, limit);
    hide WellFormed, CopyEntry, CopyTree;
    assert Parent(at + [c]) == at && [c][1..] == [];
    var m := at + [c];
    if IsLink(nodes, at + [c]) {
      m :| LeadsTo(nodes, Base(nodes, at + [c]), nodes[at + [c]].target, m);
    }
    LeadsNil(nodes, m);
    LeadsOn(nodes, at, [c], m, m);
    hide Resolve, LeadsTo;
    ResolvesToMeaning(nodes, at, [c], m);
  }

  lemma ResolvesToMeaning(nodes: Nodes, at: Path, components: seq<string>, x: Path)
    requires LeadsTo(nodes, at, components, x)
    ensures var r := Resolve(nodes, at, components, {}); r.At? ==> r.path == x
  {
    var depth: nat :| Walk(nodes, at, components, depth) == Some(x);
    MeaningClimbs(nodes, at, components, {}, depth);
  }

  /** What is met below an entry is met below the directory. */
  lemma MetBelowEntry(nodes: Nodes, at: Path, hidden: set<Path>, c: string, m: Path, s: Path, x: Path, e: string)
    requires StepsTo(nodes, at, c, m) && c != UP && at + [c] !in hidden && MeetsLink(nodes, m, {}, s, x, e)
    ensures MeetsLink(nodes, at, hidden, [c] + s, x, e)
  {
    hide LeadsTo, StepsTo;
    assert ([c] + s)[1..] == s && ([c] + s + [e])[0] == c;
    LeadsOn(nodes, at, [c] + s, m, x);
  }

  lemma FollowedBelowEntry(nodes: Nodes, at: Path, hidden: set<Path>, c: string, m: Path)
    requires FollowedBelow(nodes, at, hidden) && StepsTo(nodes, at, c, m) && c != UP && at + [c] !in hidden
    ensures FollowedBelow(nodes, m, {})
  {
    hide LeadsTo, StepsTo, Followed;
    forall s, x, e | MeetsLink(nodes, m, {}, s, x, e)
      ensures Followed(nodes, x + [e])
    {
      MetBelowEntry(nodes, at, hidden, c, m, s, x, e);
    }
  }

  lemma FollowedEntry(nodes: Nodes, at: Path, hidden: set<Path>, c: string)
    requires FollowedBelow(nodes, at, hidden) && c != UP && IsLink(nodes, at + [c]) && at + [c] !in hidden
    ensures Followed(nodes, at + [c])
  {
    LeadsNil(nodes, at);
    assert MeetsLink(nodes, at, hidden, [], at, c);
  }

  /** An entry's copy is the copy of what the entry leads to. */
  lemma {:induction false} EntryIsCopied(nodes: Nodes, at: Path, c: string, limit: nat)
    requires WellFormed(nodes) && IsDirectory(nodes, at) && FollowedBelow(nodes, at, {}) && c != UP && at + [c] in nodes
    requires CopyEntry(nodes, at, c, limit).Some?
    ensures var r := Resolve(nodes, at, [c], {});
            r.At? && StepsTo(nodes, at, c, r.path) && IsCopy(nodes, r.path, CopyEntry(nodes, at, c, limit).value)
    decreases limit, 0
  {
    hide IsCopy, Resolve, StepsTo, WellFormed, CopyEntry, CopyTree, LeadsTo, Followed;
    if IsLink(nodes, at + [c]) {
      FollowedEntry(nodes, at, {}, c);
    }
    EntryIsStep(nodes, at, c, limit);
    EntryIsCopyOf(nodes, at, c, limit);
    hide FollowedBelow;
    var m := Resolve(nodes, at, [c], {}).path;
    if nodes[m].File? {
      FileIsItsCopy(nodes, m);
    } else {
      StepEndsAtNode(nodes, at, c, m);
      FollowedBelowEntry(nodes, at, {}, c, m);
      TreeIsCopied(nodes, m, limit - 1);
    }
  }

  lemma StepEndsAtNode(nodes: Nodes, at: Path, c: string, m: Path)
    requires WellFormed(nodes) && StepsTo(nodes, at, c, m) && c != UP && m in nodes
    ensures !nodes[m].Link?
  {
    if IsLink(nodes, at + [c]) {
      var link := nodes[at + [c]];
      var base := if link.absolute then [] else at;
      var depth: nat :| Walk(nodes, base, link.target, depth) == Some(m);
      if IsLink(nodes, m) {
        NoWalkEndsAtALink(nodes, base, link.target, depth, m);
      }
    }
  }

  /** A successful copy holds exactly what the names below the directory lead to, if every link met there
      leads somewhere. */
  lemma {:induction false} TreeIsCopied(nodes: Nodes, at: Path, limit: nat)
    requires WellFormed(nodes) && IsDirectory(nodes, at) && FollowedBelow(nodes, at, {})
    requires CopyTree(nodes, at, {}, limit).Some?
    ensures IsCopy(nodes, at, CopyTree(nodes, at, {}, limit).value)
    decreases limit, 1
  {
    hide IsCopy, StepsTo, FollowedBelow, WellFormed;
    var entries := map c | c in ChildNames(nodes, at, {}) :: CopyEntry(nodes, at, c, limit);
    forall c | c in entries
      ensures entries[c].Some? && EntryCopied(nodes, at, c, entries[c].value)
    {
      ChildNamesAreSteps(nodes, at, {}, c);
      EntryIsCopied(nodes, at, c, limit);
      var m := Resolve(nodes, at, [c], {}).path;
      assert StepsTo(nodes, at, c, m) && IsCopy(nodes, m, entries[c].value);
    }
    forall c
      ensures c in entries <==> c != UP && at + [c] in nodes
    {
      ChildNamesAreSteps(nodes, at, {}, c);
    }
    CombinedIsCopy(nodes, at, entries);
  }

  lemma EntryInCopy(nodes: Nodes, at: Path, hidden: set<Path>, limit: nat, e: string)
    requires CopyTree(nodes, at, hidden, limit).Some? && e in ChildNames(nodes, at, hidden)
    ensures CopyEntry(nodes, at, e, limit).Some?
    ensures forall k :: [e] + k in CopyTree(nodes, at, hidden, limit).value
                        <==> k in CopyEntry(nodes, at, e, limit).value
  {
    var entries := map c | c in ChildNames(nodes, at, hidden) :: CopyEntry(nodes, at, c, limit);
    hide Combine, ChildNames, CopyEntry;
    assert entries[e].Some?;
    CombineLookup(entries);
  }

  /** The copy has an entry for every name that stands where names below the directory lead to. */
  lemma {:induction false} CopyHoldsEntries(nodes: Nodes, at: Path, limit: nat, s: Path, x: Path, c: string)
    requires WellFormed(nodes) && IsDirectory(nodes, at) && CopyTree(nodes, at, {}, limit).Some?
    requires UP !in s && LeadsTo(nodes, at, s, x) && IsDirectory(nodes, x) && c != UP && x + [c] in nodes
    ensures s + [c] in CopyTree(nodes, at, {}, limit).value
    decreases |s|
  {
    hide *;
    if s == [] {
      LeadsNil(nodes, at);
      ChildNamesAreSteps(nodes, at, {}, c);
      EntryInCopy(nodes, at, {}, limit, c);
      EntryIsTree(nodes, at, c, limit);
      TreeHasRoot(CopyEntry(nodes, at, c, limit).value);
      assert s + [c] == [c] + [];
    } else {
      var e, k := s[0], s[1..];
      assert e in s && s == [e] + k && s + [c] == [e] + (k + [c]);
      var first := LeadsByFirst(nodes, at, s, x);
      StepNeedsEntry(nodes, at, e, first);
      ChildNamesAreSteps(nodes, at, {}, e);
      EntryInCopy(nodes, at, {}, limit, e);
      StepIsEntry(nodes, at, e, first, limit);
      if !IsDirectory(nodes, first) {
        LeadsOnlyFromDirectories(nodes, first, k, x);
      }
      CopyHoldsEntries(nodes, first, limit - 1, k, x, c);
    }
  }

  /** Where an entry leads, its copy is taken from. */
  lemma StepIsEntry(nodes: Nodes, at: Path, c: string, first: Path, limit: nat)
    requires WellFormed(nodes) && StepsTo(nodes, at, c, first) && c != UP
    requires CopyEntry(nodes, at, c, limit).Some?
    ensures first in nodes
    ensures IsDirectory(nodes, first) ==>
              limit > 0 && CopyEntry(nodes, at, c, limit) == CopyTree(nodes, first, {}, limit - 1)
  {
    EntryIsCopyOf(nodes, at, c, limit);
    hide WellFormed, CopyTree, CopyEntry, StepsTo;
    assert [c][1..] == [];
    LeadsNil(nodes, first);
    LeadsOn(nodes, at, [c], first, first);
    hide Resolve, LeadsTo;
    ResolvesToMeaning(nodes, at, [c], first);
  }

  /** Exactly then: a link that leads nowhere but is found leaves an entry that no name led to. */
  lemma TreeIsCopiedExactly(nodes: Nodes, at: Path, limit: nat)
    requires WellFormed(nodes) && IsDirectory(nodes, at)
    requires CopyTree(nodes, at, {}, limit).Some?
    ensures IsCopy(nodes, at, CopyTree(nodes, at, {}, limit).value) <==> FollowedBelow(nodes, at, {})
  {
    hide WellFormed, CopyTree, LeadsTo, IsCopy, Followed;
    var copy := CopyTree(nodes, at, {}, limit).value;
    if FollowedBelow(nodes, at, {}) {
      TreeIsCopied(nodes, at, limit);
    }
    if IsCopy(nodes, at, copy) {
      forall s, x, c | MeetsLink(nodes, at, {}, s, x, c)
        ensures Followed(nodes, x + [c])
      {
        CopiedLinkIsFollowed(nodes, at, limit, s, x, c);
      }
    }
  }

  lemma CopiedLinkIsFollowed(nodes: Nodes, at: Path, limit: nat, s: Path, x: Path, c: string)
    requires WellFormed(nodes) && IsDirectory(nodes, at) && CopyTree(nodes, at, {}, limit).Some?
    requires IsCopy(nodes, at, CopyTree(nodes, at, {}, limit).value)
    requires UP !in s && LeadsTo(nodes, at, s, x) && c != UP && IsLink(nodes, x + [c])
    ensures Followed(nodes, x + [c])
  {
    hide WellFormed, CopyTree, LeadsTo;
    DirectoryAbove(nodes, x, c);
    CopyHoldsEntries(nodes, at, limit, s, x, c);
    var z :| LeadsTo(nodes, at, s + [c], z);
    LeadsByLast(nodes, at, s, c, x, z);
    assert Parent(x + [c]) == x;
    assert LeadsTo(nodes, Base(nodes, x + [c]), nodes[x + [c]].target, z);
  }

  lemma DirectoryAbove(nodes: Nodes, x: Path, c: string)
    requires WellFormed(nodes) && x + [c] in nodes
    ensures IsDirectory(nodes, x)
  {
    HasParent(nodes, x + [c]);
    assert Parent(x + [c]) == x;
  }

  /** The entry leads somewhere, and this is the copy of that. */
  ghost predicate EntryCopied(nodes: Nodes, at: Path, c: string, copy: Nodes) {
    exists m :: StepsTo(nodes, at, c, m) && IsCopy(nodes, m, copy)
  }

  lemma CombinedIsCopy(nodes: Nodes, at: Path, entries: map<string, Option<Nodes>>)
    requires IsDirectory(nodes, at)
    requires forall c :: c in entries <==> c != UP && at + [c] in nodes
    requires forall c :: c in entries ==> entries[c].Some? && EntryCopied(nodes, at, c, entries[c].value)
    ensures IsCopy(nodes, at, Combine(entries))
  {
    hide LeadsTo, StepsTo, Combine;
    var all := Combine(entries);
    CombineLookup(entries);
    LeadsNil(nodes, at);
    forall s | s in all
      ensures UP !in s && !all[s].Link? && exists x :: LeadsTo(nodes, at, s, x)
    {
      if s != [] {
        var c, k := s[0], s[1..];
        assert s == [c] + k;
        var m :| StepsTo(nodes, at, c, m) && IsCopy(nodes, m, entries[c].value);
        var x :| LeadsTo(nodes, m, k, x);
        LeadsOn(nodes, at, s, m, x);
      }
    }
    forall s, x | UP !in s && LeadsTo(nodes, at, s, x)
      ensures s in all && x in nodes && all[s] == nodes[x]
    {
      if s != [] {
        var c, k := s[0], s[1..];
        assert s == [c] + k && c in s;
        var first := LeadsByFirst(nodes, at, s, x);
        StepNeedsEntry(nodes, at, c, first);
        var m :| StepsTo(nodes, at, c, m) && IsCopy(nodes, m, entries[c].value);
        StepIsUnique(nodes, at, c, m, first);
      }
    }
  }

  // ---- When a copy succeeds ----

  /** Every link met below the directory leads somewhere inside the package. */
  ghost predicate InsideBelow(nodes: Nodes, at: Path, hidden: set<Path>) {
    forall s, x, c :: MeetsLink(nodes, at, hidden, s, x, c) ==> EntersInside(nodes, x, c)
  }

  ghost predicate EntersInside(nodes: Nodes, at: Path, c: string) {
    exists z :: LeadsInside(nodes, at, [c], z)
  }

  /** Names lead to a directory below the directory, other than through what is hidden in it. */
  ghost predicate MeetsDirectory(nodes: Nodes, at: Path, hidden: set<Path>, s: Path, x: Path) {
    s != [] && UP !in s && LeadsTo(nodes, at, s, x) && IsDirectory(nodes, x) && at + [s[0]] !in hidden
  }

  /** No directory below is reached by more names than this. */
  ghost predicate ShallowBelow(nodes: Nodes, at: Path, hidden: set<Path>, limit: nat) {
    forall s, x :: MeetsDirectory(nodes, at, hidden, s, x) ==> |s| <= limit
  }

  lemma DirectoryMetBelowEntry(nodes: Nodes, at: Path, hidden: set<Path>, c: string, m: Path, s: Path, x: Path)
    requires StepsTo(nodes, at, c, m) && c != UP && at + [c] !in hidden && MeetsDirectory(nodes, m, {}, s, x)
    ensures MeetsDirectory(nodes, at, hidden, [c] + s, x)
  {
    hide LeadsTo, StepsTo;
    assert ([c] + s)[1..] == s;
    LeadsOn(nodes, at, [c] + s, m, x);
  }

  lemma EntryLeadsByStep(nodes: Nodes, at: Path, c: string, m: Path)
    requires StepsTo(nodes, at, c, m)
    ensures LeadsTo(nodes, at, [c], m)
  {
    hide LeadsTo, StepsTo;
    assert [c][1..] == [];
    LeadsNil(nodes, m);
    LeadsOn(nodes, at, [c], m, m);
  }

  /** An entry that leads inside the package to a file is copied, and one that leads inside to a directory
      if that is. */
  lemma EntrySucceeds(nodes: Nodes, at: Path, c: string, m: Path, limit: nat)
    requires WellFormed(nodes) && IsDirectory(nodes, at) && c != UP && StepsTo(nodes, at, c, m)
    requires IsLink(nodes, at + [c]) ==> EntersInside(nodes, at, c)
    requires IsDirectory(nodes, m) ==> limit > 0 && CopyTree(nodes, m, {}, limit - 1).Some?
    ensures CopyEntry(nodes, at, c, limit).Some?
  {
    EntryLeadsByStep(nodes, at, c, m);
    assert LeadsInside(nodes, at, [c], m) by {
      EntryIsInside(nodes, at, c, m);
    }
    hide LeadsTo, LeadsInside, StepsTo, InnerWalk, ClimbsFromDirectories, Resolve, CopyTree, WellFormed, IsLink;
    FoundInsideExactly(nodes, at, [c], m);
    StepEndsAtNode(nodes, at, c, m);
  }

  lemma EntryIsInside(nodes: Nodes, at: Path, c: string, m: Path)
    requires IsDirectory(nodes, at) && c != UP && StepsTo(nodes, at, c, m)
    requires IsLink(nodes, at + [c]) ==> EntersInside(nodes, at, c)
    ensures LeadsInside(nodes, at, [c], m)
  {
    if IsLink(nodes, at + [c]) {
      EntryLeadsByStep(nodes, at, c, m);
      hide LeadsInside, LeadsTo, StepsTo;
      var z :| LeadsInside(nodes, at, [c], z);
      LeadsInsideLeads(nodes, at, [c], z);
      LeadsNowhereElse(nodes, at, [c], z, m);
    } else {
      assert [c][1..] == [];
      assert InnerWalk(nodes, at, [c], 0) == InnerWalk(nodes, m, [], 0) == Some(m);
    }
  }

  /** A copied entry that leads anywhere leads there inside the package. */
  lemma CopiedEntryIsInside(nodes: Nodes, at: Path, c: string, limit: nat)
    requires WellFormed(nodes) && IsDirectory(nodes, at) && c != UP && IsLink(nodes, at + [c])
    requires Followed(nodes, at + [c]) && CopyEntry(nodes, at, c, limit).Some?
    ensures EntersInside(nodes, at, c)
  {
    EntryIsStep(nodes, at, c, limit);
    hide CopyEntry, StepsTo, LeadsTo, LeadsInside, InnerWalk, Resolve, WellFormed, Followed, ClimbsFromDirectories;
    var m := Resolve(nodes, at, [c], {}).path;
    EntryLeadsByStep(nodes, at, c, m);
    PathClimbs(nodes, at, [c], m);
    FoundInsideExactly(nodes, at, [c], m);
  }

  lemma PathClimbs(nodes: Nodes, at: Path, components: seq<string>, x: Path)
    requires LeadsTo(nodes, at, components, x)
    ensures ClimbsFromDirectories(nodes, at, components, {})
  {
    var depth: nat :| Walk(nodes, at, components, depth) == Some(x);
    MeaningClimbs(nodes, at, components, {}, depth);
  }

  lemma EntryHasStep(nodes: Nodes, at: Path, hidden: set<Path>, c: string) returns (m: Path)
    requires IsDirectory(nodes, at) && FollowedBelow(nodes, at, hidden) && c != UP
    requires at + [c] in nodes && at + [c] !in hidden
    ensures StepsTo(nodes, at, c, m)
  {
    m := at + [c];
    if IsLink(nodes, at + [c]) {
      FollowedEntry(nodes, at, hidden, c);
      assert Parent(at + [c]) == at;
      m :| LeadsTo(nodes, Base(nodes, at + [c]), nodes[at + [c]].target, m);
    }
  }

  lemma {:induction false} CopySucceeds(nodes: Nodes, at: Path, hidden: set<Path>, limit: nat)
    requires WellFormed(nodes) && IsDirectory(nodes, at) && FollowedBelow(nodes, at, hidden)
    requires InsideBelow(nodes, at, hidden) && ShallowBelow(nodes, at, hidden, limit)
    ensures CopyTree(nodes, at, hidden, limit).Some?
    decreases limit
  {
    hide CopyEntry, WellFormed, StepsTo, LeadsTo, MeetsLink, FollowedBelow;
    forall c | c in ChildNames(nodes, at, hidden)
      ensures CopyEntry(nodes, at, c, limit).Some?
    {
      ChildNamesAreSteps(nodes, at, hidden, c);
      var m := EntryHasStep(nodes, at, hidden, c);
      if IsLink(nodes, at + [c]) {
        MeetsEntry(nodes, at, hidden, c);
      }
      if IsDirectory(nodes, m) {
        EntryLeadsByStep(nodes, at, c, m);
        assert MeetsDirectory(nodes, at, hidden, [c], m);
        ConditionsBelowEntry(nodes, at, hidden, c, m, limit);
        CopySucceeds(nodes, m, {}, limit - 1);
      }
      EntrySucceeds(nodes, at, c, m, limit);
    }
  }

  lemma MeetsEntry(nodes: Nodes, at: Path, hidden: set<Path>, c: string)
    requires c != UP && IsLink(nodes, at + [c]) && at + [c] !in hidden
    ensures MeetsLink(nodes, at, hidden, [], at, c)
  {
    LeadsNil(nodes, at);
  }

  lemma ConditionsBelowEntry(nodes: Nodes, at: Path, hidden: set<Path>, c: string, m: Path, limit: nat)
    requires FollowedBelow(nodes, at, hidden) && InsideBelow(nodes, at, hidden)
    requires ShallowBelow(nodes, at, hidden, limit) && limit > 0
    requires StepsTo(nodes, at, c, m) && c != UP && at + [c] !in hidden
    ensures FollowedBelow(nodes, m, {}) && InsideBelow(nodes, m, {}) && ShallowBelow(nodes, m, {}, limit - 1)
  {
    hide MeetsLink, MeetsDirectory, StepsTo, EntersInside;
    FollowedBelowEntry(nodes, at, hidden, c, m);
    forall s, x, e | MeetsLink(nodes, m, {}, s, x, e)
      ensures EntersInside(nodes, x, e)
    {
      MetBelowEntry(nodes, at, hidden, c, m, s, x, e);
    }
    forall s, x | MeetsDirectory(nodes, m, {}, s, x)
      ensures |s| <= limit - 1
    {
      DirectoryMetBelowEntry(nodes, at, hidden, c, m, s, x);
    }
  }

  /** A successful copy holds a successful copy of every directory met. */
  lemma {:induction false} DirectoryIsCopied(nodes: Nodes, at: Path, hidden: set<Path>, limit: nat, s: Path, x: Path)
    requires WellFormed(nodes) && IsDirectory(nodes, at) && CopyTree(nodes, at, hidden, limit).Some?
    requires MeetsDirectory(nodes, at, hidden, s, x)
    ensures |s| <= limit && CopyTree(nodes, x, {}, limit - |s|).Some?
    decreases |s|
  {
    hide CopyTree, CopyEntry, ChildNames, WellFormed, LeadsTo, StepsTo;
    var e, k := s[0], s[1..];
    assert e in s && s == [e] + k;
    var first := LeadsByFirst(nodes, at, s, x);
    StepNeedsEntry(nodes, at, e, first);
    ChildNamesAreSteps(nodes, at, hidden, e);
    EntryInCopy(nodes, at, hidden, limit, e);
    StepIsEntry(nodes, at, e, first, limit);
    if k == [] {
      LeadsNil(nodes, first);
    } else {
      if !IsDirectory(nodes, first) {
        LeadsOnlyFromDirectories(nodes, first, k, x);
      }
      DirectoryIsCopied(nodes, first, {}, limit - 1, k, x);
    }
  }

  /** A copy succeeds exactly if every link met leads somewhere inside the package and no directory is
      reached by more names than the limit. */
  lemma CopySucceedsExactly(nodes: Nodes, at: Path, hidden: set<Path>, limit: nat)
    requires WellFormed(nodes) && IsDirectory(nodes, at) && FollowedBelow(nodes, at, hidden)
    ensures CopyTree(nodes, at, hidden, limit).Some?
            <==> InsideBelow(nodes, at, hidden) && ShallowBelow(nodes, at, hidden, limit)
  {
    hide CopyTree, WellFormed, MeetsLink, MeetsDirectory, Followed, EntersInside;
    if InsideBelow(nodes, at, hidden) && ShallowBelow(nodes, at, hidden, limit) {
      CopySucceeds(nodes, at, hidden, limit);
    }
    if CopyTree(nodes, at, hidden, limit).Some? {
      forall s, x | MeetsDirectory(nodes, at, hidden, s, x)
        ensures |s| <= limit
      {
        DirectoryIsCopied(nodes, at, hidden, limit, s, x);
      }
      forall s, x, c | MeetsLink(nodes, at, hidden, s, x, c)
        ensures EntersInside(nodes, x, c)
      {
        MetLinkIsInside(nodes, at, hidden, limit, s, x, c);
      }
    }
  }

  lemma DirectoryIsMet(nodes: Nodes, at: Path, hidden: set<Path>, s: Path, x: Path)
    requires s != [] && UP !in s && LeadsTo(nodes, at, s, x) && IsDirectory(nodes, x) && at + [s[0]] !in hidden
    ensures MeetsDirectory(nodes, at, hidden, s, x)
  {
  }

  lemma MetLink(nodes: Nodes, at: Path, hidden: set<Path>, s: Path, x: Path, c: string)
    requires FollowedBelow(nodes, at, hidden) && MeetsLink(nodes, at, hidden, s, x, c)
    ensures UP !in s && c != UP && LeadsTo(nodes, at, s, x)
    ensures x + [c] in nodes && IsLink(nodes, x + [c]) && Followed(nodes, x + [c])
    ensures if s == [] then x == at && at + [c] !in hidden else at + [s[0]] !in hidden
  {
    LeadsNil(nodes, at);
    if s == [] {
      assert (s + [c])[0] == c;
    } else {
      assert (s + [c])[0] == s[0];
    }
  }

  lemma MetLinkIsInside(nodes: Nodes, at: Path, hidden: set<Path>, limit: nat, s: Path, x: Path, c: string)
    requires WellFormed(nodes) && IsDirectory(nodes, at) && FollowedBelow(nodes, at, hidden)
    requires CopyTree(nodes, at, hidden, limit).Some? && MeetsLink(nodes, at, hidden, s, x, c)
    ensures EntersInside(nodes, x, c)
  {
    hide *;
    MetLink(nodes, at, hidden, s, x, c);
    DirectoryAbove(nodes, x, c);
    if s == [] {
      ChildNamesAreSteps(nodes, at, hidden, c);
      EntryInCopy(nodes, at, hidden, limit, c);
      CopiedEntryIsInside(nodes, at, c, limit);
    } else {
      DirectoryIsMet(nodes, at, hidden, s, x);
      DirectoryIsCopied(nodes, at, hidden, limit, s, x);
      ChildNamesAreSteps(nodes, x, {}, c);
      EntryInCopy(nodes, x, {}, limit - |s|, c);
      CopiedEntryIsInside(nodes, x, c, limit - |s|);
    }
  }
}
