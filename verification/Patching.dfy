/** The source edits of ports/bat/patch_crossterm.py: a guarded replacement and the
    removal of repeated blocks. */
module Patching {
  import opened Wrappers

  predicate OccursAt(s: string, sub: string, i: nat) {
    i + |sub| <= |s| && s[i..i + |sub|] == sub
  }

  /** `sub in s` */
  predicate Contains(s: string, sub: string) {
    exists i :: 0 <= i <= |s| && OccursAt(s, sub, i)
  }

  /** `s.replace(fragment, new)` for a non-empty fragment: from left to right, without overlaps. */
  function ReplaceFragment(s: string, fragment: string, replacement: string): string
    requires fragment != ""
  {
    if |s| < |fragment| then s
    else if s[..|fragment|] == fragment then replacement + ReplaceFragment(s[|fragment|..], fragment, replacement)
    else [s[0]] + ReplaceFragment(s[1..], fragment, replacement)
  }

  /** An empty fragment occurs before every character and at the end. */
  function Interleave(s: string, replacement: string): string {
    if s == "" then replacement else replacement + [s[0]] + Interleave(s[1..], replacement)
  }

  function ReplaceAll(s: string, fragment: string, replacement: string): string {
    if fragment == "" then Interleave(s, replacement) else ReplaceFragment(s, fragment, replacement)
  }

  lemma ContainsInside(front: string, sub: string, back: string)
    ensures Contains(front + sub + back, sub)
  {
    assert OccursAt(front + sub + back, sub, |front|);
  }

  lemma ContainsLonger(front: string, s: string, sub: string)
    requires Contains(s, sub)
    ensures Contains(front + s, sub)
  {
    var i :| 0 <= i <= |s| && OccursAt(s, sub, i);
    assert (front + s)[|front| + i..|front| + i + |sub|] == s[i..i + |sub|];
    assert OccursAt(front + s, sub, |front| + i);
  }

  /** Skipping a first character that starts no occurrence loses none. */
  lemma ContainsTail(s: string, sub: string)
    requires Contains(s, sub) && |s| > 0 && (|s| < |sub| || s[..|sub|] != sub)
    ensures Contains(s[1..], sub)
  {
    var i :| 0 <= i <= |s| && OccursAt(s, sub, i);
    assert i > 0;
    assert s[1..][i - 1..i - 1 + |sub|] == s[i..i + |sub|];
    assert OccursAt(s[1..], sub, i - 1);
  }

  /** Replacing a fragment that occurs leaves the replacement in the text. */
  lemma {:induction false} ReplacementOccurs(s: string, fragment: string, replacement: string)
    requires Contains(s, fragment)
    ensures Contains(ReplaceAll(s, fragment, replacement), replacement)
    decreases |s|
  {
    var r := ReplaceAll(s, fragment, replacement);
    if fragment == "" {
      var back := if s == "" then "" else [s[0]] + Interleave(s[1..], replacement);
      assert r == "" + replacement + back;
      ContainsInside("", replacement, back);
    } else if s[..|fragment|] == fragment {
      assert r == "" + replacement + ReplaceFragment(s[|fragment|..], fragment, replacement);
      ContainsInside("", replacement, ReplaceFragment(s[|fragment|..], fragment, replacement));
    } else {
      ContainsTail(s, fragment);
      ReplacementOccurs(s[1..], fragment, replacement);
      ContainsLonger([s[0]], ReplaceFragment(s[1..], fragment, replacement), replacement);
    }
  }

  // ---- The guarded replacement ----

  // ---- What replacing does to the whole text ----

  function Joined(pieces: seq<string>, glue: string): string
    requires pieces != []
  {
    if |pieces| == 1 then pieces[0] else pieces[0] + glue + Joined(pieces[1..], glue)
  }

  /** The fragment, put behind the piece, does not occur any earlier. */
  ghost predicate EndsAtFirst(piece: string, fragment: string) {
    forall k :: 0 <= k < |piece| ==> !OccursAt(piece + fragment, fragment, k)
  }

  /** The pieces end where the fragment first occurs, and the last one does not contain it. */
  ghost predicate CutAtEveryFirst(pieces: seq<string>, fragment: string) {
    && pieces != []
    && if |pieces| == 1 then !Contains(pieces[0], fragment)
       else EndsAtFirst(pieces[0], fragment) && CutAtEveryFirst(pieces[1..], fragment)
  }

  function Singles(s: string): seq<string> {
    seq(|s|, i requires 0 <= i < |s| => [s[i]])
  }

  lemma JoinedFirst(first: string, rest: seq<string>, glue: string)
    requires rest != []
    ensures Joined([first] + rest, glue) == first + (glue + Joined(rest, glue))
  {
    assert ([first] + rest)[1..] == rest;
    assert first + glue + Joined(rest, glue) == first + (glue + Joined(rest, glue));
  }

  /** Replacing the empty fragment puts the replacement before, between and after the characters. */
  lemma {:induction false} InterleavingJoins(s: string, replacement: string)
    ensures Interleave(s, replacement) == Joined([""] + (Singles(s) + [""]), replacement)
  {
    var last := Singles(s) + [""];
    JoinedFirst("", last, replacement);
    if s == "" {
      assert last == [""];
    } else {
      InterleavingJoins(s[1..], replacement);
      var rest := Singles(s[1..]) + [""];
      assert last == [[s[0]]] + rest;
      hide Joined, Singles;
      JoinedFirst("", rest, replacement);
      JoinedFirst([s[0]], rest, replacement);
    }
  }

  lemma JoinedAfterEmpty(rest: seq<string>, glue: string)
    requires rest != []
    ensures Joined([""] + rest, glue) == glue + Joined(rest, glue)
  {
    assert ([""] + rest)[1..] == rest;
    assert "" + glue == glue;
  }

  lemma JoinedGrown(c: char, rest: seq<string>, glue: string)
    requires rest != []
    ensures Joined([[c] + rest[0]] + rest[1..], glue) == [c] + Joined(rest, glue)
  {
    var pieces := [[c] + rest[0]] + rest[1..];
    assert pieces[1..] == rest[1..];
    if |rest| > 1 {
      assert [c] + rest[0] + glue + Joined(rest[1..], glue) == [c] + (rest[0] + glue + Joined(rest[1..], glue));
    }
  }

  lemma CutAfterEmpty(rest: seq<string>, fragment: string)
    requires CutAtEveryFirst(rest, fragment)
    ensures CutAtEveryFirst([""] + rest, fragment)
  {
    assert ([""] + rest)[1..] == rest;
  }

  lemma CutGrown(c: char, rest: seq<string>, fragment: string)
    requires CutAtEveryFirst(rest, fragment)
    requires var s := [c] + Joined(rest, fragment); |s| >= |fragment| > 0 && s[..|fragment|] != fragment
    ensures CutAtEveryFirst([[c] + rest[0]] + rest[1..], fragment)
  {
    hide OccursAt, EndsAtFirst, Contains;
    var pieces := [[c] + rest[0]] + rest[1..];
    assert pieces[1..] == rest[1..];
    var s := [c] + Joined(rest, fragment);
    if |rest| == 1 {
      assert s[1..] == rest[0];
      NoneInLonger(s, fragment);
    } else {
      var more := Joined(rest[1..], fragment);
      assert s == [c] + rest[0] + fragment + more;
      LongerPieceEnds(c, rest[0], more, fragment);
    }
  }

  /** The text splits around the occurrences that are met from left to right, and the result joins the same
      pieces with the replacement. */
  lemma {:induction false} ReplacingRejoins(s: string, fragment: string, replacement: string)
      returns (pieces: seq<string>)
    requires fragment != ""
    ensures CutAtEveryFirst(pieces, fragment)
    ensures Joined(pieces, fragment) == s && Joined(pieces, replacement) == ReplaceFragment(s, fragment, replacement)
    decreases |s|
  {
    if |s| < |fragment| {
      pieces := [s];
      ShortTextHasNone(s, fragment);
    } else if s[..|fragment|] == fragment {
      var rest := ReplacingRejoins(s[|fragment|..], fragment, replacement);
      pieces := [""] + rest;
      hide Joined, CutAtEveryFirst;
      assert s == fragment + s[|fragment|..];
      CutAfterEmpty(rest, fragment);
      JoinedAfterEmpty(rest, fragment);
      JoinedAfterEmpty(rest, replacement);
    } else {
      var rest := ReplacingRejoins(s[1..], fragment, replacement);
      pieces := [[s[0]] + rest[0]] + rest[1..];
      hide Joined, CutAtEveryFirst;
      assert s == [s[0]] + s[1..];
      CutGrown(s[0], rest, fragment);
      JoinedGrown(s[0], rest, fragment);
      JoinedGrown(s[0], rest, replacement);
    }
  }

  lemma ShortTextHasNone(s: string, fragment: string)
    requires |s| < |fragment|
    ensures !Contains(s, fragment)
  {
  }

  lemma NoneInLonger(s: string, fragment: string)
    requires |fragment| <= |s| && |s| > 0 && s[..|fragment|] != fragment && !Contains(s[1..], fragment)
    ensures !Contains(s, fragment)
  {
    if Contains(s, fragment) {
      ContainsTail(s, fragment);
    }
  }

  /** A character that starts no occurrence belongs to the piece behind it. */
  lemma LongerPieceEnds(c: char, piece: string, more: string, fragment: string)
    requires EndsAtFirst(piece, fragment)
    requires ([c] + piece + fragment + more)[..|fragment|] != fragment
    ensures EndsAtFirst([c] + piece, fragment)
  {
    var longer := [c] + piece + fragment;
    assert longer[..|fragment|] == (longer + more)[..|fragment|];
    assert longer[1..] == piece + fragment;
    forall k | 0 <= k < |[c] + piece|
      ensures !OccursAt(longer, fragment, k)
    {
      if k > 0 {
        assert longer[k..k + |fragment|] == longer[1..][k - 1..k - 1 + |fragment|];
        assert !OccursAt(piece + fragment, fragment, k - 1);
      }
    }
  }

  /** There is only one such way to split a text. */
  lemma {:induction false} CutIsUnique(a: seq<string>, b: seq<string>, fragment: string)
    requires fragment != "" && CutAtEveryFirst(a, fragment) && CutAtEveryFirst(b, fragment)
    requires Joined(a, fragment) == Joined(b, fragment)
    ensures a == b
    decreases |a|
  {
    hide OccursAt, EndsAtFirst, Contains;
    if |a| == 1 && |b| == 1 {
      assert a == [a[0]] && b == [b[0]];
    } else if |b| == 1 {
      ContainsInside(a[0], fragment, Joined(a[1..], fragment));
    } else if |a| == 1 {
      ContainsInside(b[0], fragment, Joined(b[1..], fragment));
    } else {
      NoEarlierCut(a[0], Joined(a[1..], fragment), b[0], Joined(b[1..], fragment), fragment);
      NoEarlierCut(b[0], Joined(b[1..], fragment), a[0], Joined(a[1..], fragment), fragment);
      var s := Joined(a, fragment);
      assert a[0] == s[..|a[0]|] == b[0];
      assert Joined(a[1..], fragment) == s[|a[0]| + |fragment|..] == Joined(b[1..], fragment);
      CutIsUnique(a[1..], b[1..], fragment);
      assert a == [a[0]] + a[1..] && b == [b[0]] + b[1..];
    }
  }

  lemma NoEarlierCut(p: string, more: string, q: string, rest: string, fragment: string)
    requires p + fragment + more == q + fragment + rest
    requires EndsAtFirst(q, fragment)
    ensures |p| >= |q|
  {
    if |p| < |q| {
      var s := p + fragment + more;
      assert s[|p|..|p| + |fragment|] == fragment;
      assert (q + fragment)[|p|..|p| + |fragment|] == s[|p|..|p| + |fragment|];
      assert OccursAt(q + fragment, fragment, |p|);
    }
  }

  datatype PatchError = NoSuchFile | FragmentNotFound

  /** The text `replace` leaves, or its complaint. */
  function Replaced(content: string, fragment: string, replacement: string): Result<string, PatchError> {
    if Contains(content, replacement) then Ok(content)
    else if !Contains(content, fragment) then Err(FragmentNotFound)
    else Ok(ReplaceAll(content, fragment, replacement))
  }

  /** A second replacement finds the first one's result and leaves it alone. */
  lemma ReplacingTwiceIsReplacingOnce(content: string, fragment: string, replacement: string)
    requires Replaced(content, fragment, replacement).Ok?
    ensures var once := Replaced(content, fragment, replacement).value;
            Contains(once, replacement) && Replaced(once, fragment, replacement) == Ok(once)
  {
    if !Contains(content, replacement) {
      ReplacementOccurs(content, fragment, replacement);
    }
  }

  // ---- Removing repeated blocks ----

  function Doubled(block: string): (d: string)
    ensures |d| == 2 * |block| + 1
  {
    block + "\n" + block
  }

  /** One occurrence of the doubled block becomes a single block. */
  ghost predicate CollapsesOnce(a: string, b: string, block: string) {
    exists i :: 0 <= i <= |a| && CollapsedAt(a, b, block, i)
  }

  ghost predicate CollapsedAt(a: string, b: string, block: string, i: nat) {
    && OccursAt(a, Doubled(block), i)
    && b == a[..i] + block + a[i + |Doubled(block)|..]
  }

  ghost predicate Collapses(a: string, b: string, block: string, n: nat)
    decreases n
  {
    if n == 0 then a == b
    else exists mid :: CollapsesOnce(a, mid, block) && Collapses(mid, b, block, n - 1)
  }

  lemma CollapsesHere(x: string, y: string, block: string)
    ensures CollapsesOnce(x + Doubled(block) + y, x + block + y, block)
  {
    var a, width := x + Doubled(block) + y, |Doubled(block)|;
    assert a[|x|..|x| + width] == Doubled(block) && a[..|x|] == x && a[|x| + width..] == y;
    assert CollapsedAt(a, x + block + y, block, |x|);
  }

  lemma CollapsedSplit(a: string, b: string, block: string) returns (x: string, y: string)
    requires CollapsesOnce(a, b, block)
    ensures a == x + Doubled(block) + y && b == x + block + y
  {
    hide Doubled;
    var i :| 0 <= i <= |a| && CollapsedAt(a, b, block, i);
    x, y := a[..i], a[i + |Doubled(block)|..];
    assert a == a[..i] + a[i..i + |Doubled(block)|] + a[i + |Doubled(block)|..];
  }

  lemma PutBefore(front: string, x: string, middle: string, y: string)
    ensures front + (x + middle + y) == (front + x) + middle + y
  {
  }

  lemma CollapsesOnceBehind(front: string, a: string, b: string, block: string)
    requires CollapsesOnce(a, b, block)
    ensures CollapsesOnce(front + a, front + b, block)
  {
    hide *;
    var x, y := CollapsedSplit(a, b, block);
    CollapsesHere(front + x, y, block);
    PutBefore(front, x, Doubled(block), y);
    PutBefore(front, x, block, y);
  }

  lemma {:induction false} CollapsesBehind(front: string, a: string, b: string, block: string, n: nat)
    requires Collapses(a, b, block, n)
    ensures Collapses(front + a, front + b, block, n)
    decreases n
  {
    if n > 0 {
      var mid :| CollapsesOnce(a, mid, block) && Collapses(mid, b, block, n - 1);
      CollapsesOnceBehind(front, a, mid, block);
      CollapsesBehind(front, mid, b, block, n - 1);
    }
  }

  lemma {:induction false} CollapsesThrough(a: string, b: string, c: string, block: string, m: nat, n: nat)
    requires Collapses(a, b, block, m) && Collapses(b, c, block, n)
    ensures Collapses(a, c, block, m + n)
    decreases m
  {
    if m > 0 {
      var mid :| CollapsesOnce(a, mid, block) && Collapses(mid, b, block, m - 1);
      CollapsesThrough(mid, b, c, block, m - 1, n);
    }
  }

  lemma FirstCollapses(block: string, rest: string, s: string)
    requires s == Doubled(block) + rest
    ensures CollapsesOnce(s, block + rest, block)
  {
    hide Doubled;
    assert s[0..0 + |Doubled(block)|] == Doubled(block);
    assert s[..0] + block + s[0 + |Doubled(block)|..] == block + rest;
    assert CollapsedAt(s, block + rest, block, 0);
  }

  lemma CollapsesOneMore(a: string, mid: string, b: string, block: string, n: nat)
    requires CollapsesOnce(a, mid, block) && Collapses(mid, b, block, n)
    ensures Collapses(a, b, block, n + 1)
  {
    hide CollapsesOnce;
  }

  /** Replacing all doubled blocks collapses them one by one. */
  lemma {:induction false} ReplacingCollapses(s: string, block: string) returns (n: nat)
    ensures Collapses(s, ReplaceFragment(s, Doubled(block), block), block, n)
    decreases |s|
  {
    hide Doubled, CollapsesOnce, Contains;
    var d := Doubled(block);
    n := 0;
    if |s| < |d| {
    } else if s[..|d|] == d {
      var rest := s[|d|..];
      n := ReplacingCollapses(rest, block);
      var after := ReplaceFragment(rest, d, block);
      CollapsesBehind(block, rest, after, block, n);
      FirstCollapses(block, rest, s);
      CollapsesOneMore(s, block + rest, block + after, block, n);
      n := n + 1;
    } else {
      n := ReplacingCollapses(s[1..], block);
      assert [s[0]] + s[1..] == s;
      CollapsesBehind([s[0]], s[1..], ReplaceFragment(s[1..], d, block), block, n);
    }
  }

  /** Replacing never lengthens the text, and shortens it if there is a doubled block. */
  lemma {:induction false} ReplacingShortens(s: string, block: string)
    ensures |ReplaceFragment(s, Doubled(block), block)| <= |s|
    ensures Contains(s, Doubled(block)) ==> |ReplaceFragment(s, Doubled(block), block)| < |s|
    decreases |s|
  {
    hide Doubled;
    var d := Doubled(block);
    if |s| < |d| {
    } else if s[..|d|] == d {
      ReplacingShortens(s[|d|..], block);
    } else {
      if Contains(s, d) {
        ContainsTail(s, d);
      }
      ReplacingShortens(s[1..], block);
    }
  }

  /** What `dedupe` makes of a text: collapsed until no doubled block is left. */
  ghost predicate Deduped(before: string, after: string, block: string) {
    && !Contains(after, Doubled(block))
    && exists n: nat :: Collapses(before, after, block, n)
  }

  method DedupeText(before: string, block: string) returns (content: string)
    ensures Deduped(before, content, block)
    ensures !Contains(before, Doubled(block)) ==> content == before
  {
    content := before;
    ghost var steps: nat := 0;
    while Contains(content, Doubled(block))
      invariant Collapses(before, content, block, steps)
      invariant !Contains(before, Doubled(block)) ==> content == before
      decreases |content|
    {
      ghost var n := ReplacingCollapses(content, block);
      ReplacingShortens(content, block);
      var shorter := ReplaceAll(content, Doubled(block), block);
      CollapsesThrough(before, content, shorter, block, steps, n);
      content, steps := shorter, steps + n;
    }
  }

  class SourceTree {
    var files: map<string, string>

    constructor (files: map<string, string>)
      ensures this.files == files
    {
      this.files := files;
    }

    method Replace(path: string, fragment: string, replacement: string) returns (r: Outcome<PatchError>)
      modifies this
      ensures r.Pass? <==> path in old(files) && Replaced(old(files)[path], fragment, replacement).Ok?
      ensures r.Pass? ==> files == old(files)[path := Replaced(old(files)[path], fragment, replacement).value]
      ensures r.Pass? ==> Contains(files[path], replacement)
      ensures r.Pass? ==> Replaced(files[path], fragment, replacement) == Ok(files[path])
      ensures r.Fail? ==> files == old(files) && (r.error.NoSuchFile? <==> path !in old(files))
    {
      if path !in files {
        return Fail(NoSuchFile);
      }
      var content := files[path];
      if Replaced(content, fragment, replacement).Ok? {
        ReplacingTwiceIsReplacingOnce(content, fragment, replacement);
      }
      if Contains(content, replacement) {
        assert files == files[path := content];
        return Pass;
      }
      if !Contains(content, fragment) {
        return Fail(FragmentNotFound);
      }
      files := files[path := ReplaceAll(content, fragment, replacement)];
      return Pass;
    }

    /** A second call changes nothing. */
    method Dedupe(path: string, block: string) returns (r: Outcome<PatchError>)
      modifies this
      ensures r.Pass? <==> path in old(files)
      ensures r.Pass? ==> path in files && Deduped(old(files)[path], files[path], block)
      ensures r.Pass? && !Contains(old(files)[path], Doubled(block)) ==> files == old(files)
      ensures forall p :: p != path ==> (p in files <==> p in old(files)) && (p in files ==> files[p] == old(files)[p])
      ensures r.Fail? ==> r.error.NoSuchFile? && files == old(files)
    {
      if path !in files {
        return Fail(NoSuchFile);
      }
      var content := DedupeText(files[path], block);
      files := files[path := content];
      return Pass;
    }
  }
}
