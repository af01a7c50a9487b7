/** The hard-link preserving copy and the installed size of `package_port`
    in scripts/ports.py. */
module HardLinks {
  import opened Graphs

  type Path = string

  /** A device and inode number. */
  type Inode = nat

  type Content = string

  /** The regular files of a directory tree. Hard links are paths with the same inode. */
  datatype Tree = Tree(files: map<Path, Inode>, contents: map<Inode, Content>) {
    ghost predicate Valid() {
      forall p :: p in files ==> files[p] in contents
    }

    ghost predicate SameFile(p: Path, q: Path) {
      p in files && q in files && files[p] == files[q]
    }

    function Size(p: Path): nat
      requires p in files && files[p] in contents
    {
      |contents[files[p]]|
    }
  }

  /** The copy has the same paths with the same bytes, linked to each other exactly as the source's are. */
  ghost predicate Mirrors(source: Tree, copy: Tree)
    requires source.Valid() && copy.Valid()
  {
    && copy.files.Keys == source.files.Keys
    && (forall p, q :: p in source.files && q in source.files ==> (copy.SameFile(p, q) <==> source.SameFile(p, q)))
    && (forall p :: p in source.files ==> copy.contents[copy.files[p]] == source.contents[source.files[p]])
  }

  /** The paths in `done` have been copied; `copied` names one copy of each source inode met. */
  ghost predicate CopiedSoFar(source: Tree, done: set<Path>, copy: Tree, copied: map<Inode, Path>, next: nat) {
    && copy.Valid()
    && copy.files.Keys == done && done <= source.files.Keys
    && (forall i :: i in copy.contents ==> i < next)
    && (forall i :: i in copied ==> copied[i] in done && source.files[copied[i]] == i)
    && (forall p :: p in done ==> CopiedFile(source, copy, copied, p))
    && (forall p, q :: p in done && q in done ==> (copy.SameFile(p, q) <==> source.SameFile(p, q)))
  }

  ghost predicate CopiedFile(source: Tree, copy: Tree, copied: map<Inode, Path>, p: Path) {
    && p in source.files && source.files[p] in copied && source.files[p] in source.contents
    && p in copy.files && copy.files[p] in copy.contents
    && copy.contents[copy.files[p]] == source.contents[source.files[p]]
  }

  /** A path whose inode was met before is linked to the earlier copy. */
  lemma LinkKeepsCopied(source: Tree, done: set<Path>, copy: Tree, copied: map<Inode, Path>, next: nat, p: Path)
    requires CopiedSoFar(source, done, copy, copied, next)
    requires p in source.files && p !in done && source.files[p] in copied
    ensures CopiedSoFar(source, done + {p},
                        copy.(files := copy.files[p := copy.files[copied[source.files[p]]]]), copied, next)
  {
    var q := copied[source.files[p]];
    assert CopiedFile(source, copy, copied, q);
    var copy' := copy.(files := copy.files[p := copy.files[q]]);
    forall x | x in done
      ensures CopiedFile(source, copy', copied, x)
      ensures copy'.SameFile(p, x) <==> source.SameFile(p, x)
    {
      assert CopiedFile(source, copy, copied, x);
      assert copy.SameFile(q, x) <==> source.SameFile(q, x);
    }
    assert CopiedFile(source, copy', copied, p);
  }

  /** A path whose inode is new gets an inode and bytes of its own. */
  lemma NewFileKeepsCopied(source: Tree, done: set<Path>, copy: Tree, copied: map<Inode, Path>, next: nat, p: Path)
    requires source.Valid() && CopiedSoFar(source, done, copy, copied, next)
    requires p in source.files && p !in done && source.files[p] !in copied
    ensures CopiedSoFar(source, done + {p},
                        Tree(copy.files[p := next], copy.contents[next := source.contents[source.files[p]]]),
                        copied[source.files[p] := p], next + 1)
  {
    var copy' := Tree(copy.files[p := next], copy.contents[next := source.contents[source.files[p]]]);
    var copied' := copied[source.files[p] := p];
    forall x | x in done
      ensures CopiedFile(source, copy', copied', x)
      ensures !copy'.SameFile(p, x) && !source.SameFile(p, x)
    {
      assert CopiedFile(source, copy, copied, x);
    }
    forall x, y | x in done && y in done
      ensures copy'.SameFile(x, y) <==> source.SameFile(x, y)
    {
      assert copy.SameFile(x, y) <==> source.SameFile(x, y);
    }
    assert CopiedFile(source, copy', copied', p);
  }

  class PackageRoot {
    var files: map<Path, Inode>
    var contents: map<Inode, Content>
    var copiedInodes: map<Inode, Path>
    var nextInode: nat

    constructor ()
      ensures files == map[] && contents == map[] && copiedInodes == map[]
    {
      files, contents, copiedInodes, nextInode := map[], map[], map[], 0;
    }

    function State(): Tree
      reads this
    {
      Tree(files, contents)
    }

    ghost predicate Consistent(source: Tree, done: set<Path>)
      reads this
    {
      CopiedSoFar(source, done, State(), copiedInodes, nextInode)
    }

    /** `copy_preserving_hardlinks` */
    method CopyPreservingHardlinks(source: Tree, ghost done: set<Path>, p: Path)
      requires source.Valid() && Consistent(source, done)
      requires p in source.files && p !in done
      modifies this
      ensures Consistent(source, done + {p})
    {
      var key := source.files[p];
      if key in copiedInodes {
        LinkKeepsCopied(source, done, State(), copiedInodes, nextInode, p);
        files := files[p := files[copiedInodes[key]]];
      } else {
        NewFileKeepsCopied(source, done, State(), copiedInodes, nextInode, p);
        contents := contents[nextInode := source.contents[key]];
        files := files[p := nextInode];
        copiedInodes := copiedInodes[key := p];
        nextInode := nextInode + 1;
      }
    }

    /** `copytree` with that copy function, in any order of the files. */
    method CopyTree(source: Tree, order: seq<Path>)
      requires source.Valid() && files == map[] && contents == map[] && copiedInodes == map[]
      requires NoRepeats(order) && Elements(order) == source.files.Keys
      modifies this
      ensures State().Valid() && Mirrors(source, State())
    {
      nextInode := 0;
      for i := 0 to |order|
        invariant Consistent(source, Elements(order[..i]))
      {
        assert order[i] in Elements(order);
        assert Elements(order[..i + 1]) == Elements(order[..i]) + {order[i]} by {
          assert order[..i + 1] == order[..i] + [order[i]];
        }
        CopyPreservingHardlinks(source, Elements(order[..i]), order[i]);
      }
      assert order[..|order|] == order;
      assert forall p :: p in source.files ==> CopiedFile(source, State(), copiedInodes, p);
    }
  }

  // ---- Installed size ----

  function Inodes(t: Tree, order: seq<Path>): set<Inode>
    requires forall p :: p in order ==> p in t.files
  {
    set p | p in order :: t.files[p]
  }

  /** The sum of the sizes of the given inodes. */
  ghost function TotalSize(t: Tree, inodes: set<Inode>): nat
    requires inodes <= t.contents.Keys
  {
    if inodes == {} then 0
    else
      var i :| i in inodes;
      |t.contents[i]| + TotalSize(t, inodes - {i})
  }

  lemma {:induction false} TotalSizeWith(t: Tree, inodes: set<Inode>, i: Inode)
    requires inodes <= t.contents.Keys && i in inodes
    ensures TotalSize(t, inodes) == |t.contents[i]| + TotalSize(t, inodes - {i})
    decreases |inodes|
  {
    var j :| j in inodes && TotalSize(t, inodes) == |t.contents[j]| + TotalSize(t, inodes - {j});
    if i != j {
      TotalSizeWith(t, inodes - {j}, i);
      TotalSizeWith(t, inodes - {i}, j);
      assert inodes - {i} - {j} == inodes - {j} - {i};
    }
  }

  /** The installed-size loop: each inode counts when it is first met. */
  method InstalledSize(t: Tree, order: seq<Path>) returns (kilobytes: nat)
    requires t.Valid() && forall p :: p in order ==> p in t.files
    ensures Inodes(t, order) <= t.contents.Keys
    ensures kilobytes == TotalSize(t, Inodes(t, order)) / 1024 + 1
  {
    var installedInodes: set<Inode> := {};
    var installedBytes := 0;
    for i := 0 to |order|
      invariant installedInodes == Inodes(t, order[..i]) && installedInodes <= t.contents.Keys
      invariant installedBytes == TotalSize(t, installedInodes)
    {
      var key := t.files[order[i]];
      assert Inodes(t, order[..i + 1]) == Inodes(t, order[..i]) + {key} by {
        assert order[..i + 1] == order[..i] + [order[i]];
      }
      if key in installedInodes {
        continue;
      }
      TotalSizeWith(t, installedInodes + {key}, key);
      assert installedInodes + {key} - {key} == installedInodes;
      installedInodes := installedInodes + {key};
      installedBytes := installedBytes + t.Size(order[i]);
    }
    assert order[..|order|] == order;
    return installedBytes / 1024 + 1;
  }

  /** The order in which the tree is walked does not matter. */
  lemma OrderDoesNotMatter(t: Tree, a: seq<Path>, b: seq<Path>)
    requires t.Valid() && Elements(a) == Elements(b) && Elements(a) <= t.files.Keys
    ensures (forall p :: p in a ==> p in t.files) && (forall p :: p in b ==> p in t.files)
    ensures Inodes(t, a) == Inodes(t, b)
  {
    assert forall p :: p in a <==> p in Elements(a);
    assert forall p :: p in b <==> p in Elements(b);
  }

  /** A mirrored tree has the size of its source: no link is paid for twice, none is lost. */
  lemma {:induction false} MirrorKeepsSize(source: Tree, copy: Tree, order: seq<Path>)
    requires source.Valid() && copy.Valid() && Mirrors(source, copy)
    requires forall p :: p in order ==> p in source.files
    ensures forall p :: p in order ==> p in copy.files
    ensures Inodes(source, order) <= source.contents.Keys && Inodes(copy, order) <= copy.contents.Keys
    ensures TotalSize(copy, Inodes(copy, order)) == TotalSize(source, Inodes(source, order))
  {
    assert forall p :: p in order ==> p in copy.files.Keys;
    if order != [] {
      var n := |order| - 1;
      var p, before := order[n], order[..n];
      assert order == before + [p];
      MirrorKeepsSize(source, copy, before);
      OneMorePath(source, before, p);
      OneMorePath(copy, before, p);
      assert source.files[p] in Inodes(source, before) <==> copy.files[p] in Inodes(copy, before) by {
        if q :| q in before && source.files[q] == source.files[p] {
          assert source.SameFile(p, q) && copy.SameFile(p, q);
        }
        if q :| q in before && copy.files[q] == copy.files[p] {
          assert copy.SameFile(p, q) && source.SameFile(p, q);
        }
      }
    }
  }

  lemma OneMorePath(t: Tree, before: seq<Path>, p: Path)
    requires t.Valid() && p in t.files && forall q :: q in before ==> q in t.files
    ensures Inodes(t, before) <= t.contents.Keys && Inodes(t, before + [p]) <= t.contents.Keys
    ensures TotalSize(t, Inodes(t, before + [p])) == TotalSize(t, Inodes(t, before))
              + if t.files[p] in Inodes(t, before) then 0 else |t.contents[t.files[p]]|
  {
    var i := t.files[p];
    assert Inodes(t, before + [p]) == Inodes(t, before) + {i};
    if i !in Inodes(t, before) {
      TotalSizeWith(t, Inodes(t, before) + {i}, i);
      assert Inodes(t, before) + {i} - {i} == Inodes(t, before);
    } else {
      assert Inodes(t, before) + {i} == Inodes(t, before);
    }
  }
}
