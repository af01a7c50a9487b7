/** Walks, reachability, cycles and finishing orders of the dependency graphs
    that the catalog, the build driver and the acceptance script traverse. */
module Graphs {

  type Name = string

  /** Adjacency lists. A name without an entry has no outgoing edges. */
  type Graph = map<Name, seq<Name>>

  function Successors(g: Graph, a: Name): seq<Name> {
    if a in g then g[a] else []
  }

  predicate Edge(g: Graph, a: Name, b: Name) {
    b in Successors(g, a)
  }

  ghost predicate IsWalk(g: Graph, w: seq<Name>) {
    && |w| > 0
    && forall i :: 0 <= i < |w| - 1 ==> Edge(g, w[i], w[i + 1])
  }

  ghost predicate WalkBetween(g: Graph, w: seq<Name>, a: Name, b: Name) {
    IsWalk(g, w) && w[0] == a && w[|w| - 1] == b
  }

  /** A walk of zero or more edges leads from a to b. */
  ghost predicate Reaches(g: Graph, a: Name, b: Name) {
    exists w :: WalkBetween(g, w, a, b)
  }

  ghost predicate ReachableFrom(g: Graph, starts: seq<Name>, b: Name) {
    exists a :: a in starts && Reaches(g, a, b)
  }

  /** A walk of one or more edges leads from a back to a. */
  ghost predicate OnCycle(g: Graph, a: Name) {
    exists w :: WalkBetween(g, w, a, a) && |w| >= 2
  }

  ghost predicate Acyclic(g: Graph) {
    forall a :: !OnCycle(g, a)
  }

  predicate NoRepeats<T(==)>(s: seq<T>) {
    forall i, j :: 0 <= i < j < |s| ==> s[i] != s[j]
  }

  function Elements<T>(s: seq<T>): set<T> {
    set x | x in s
  }

  /** Every name occurs once, after all of its successors. */
  ghost predicate FinishOrder(g: Graph, order: seq<Name>) {
    && NoRepeats(order)
    && forall i, b :: 0 <= i < |order| && Edge(g, order[i], b) ==> b in order[..i]
  }

  /** A walk whose last name already occurred in it: what a circularity error reports. */
  ghost predicate ClosesCycle(g: Graph, chain: seq<Name>) {
    && IsWalk(g, chain)
    && chain[|chain| - 1] in chain[..|chain| - 1]
  }

  lemma ReachesItself(g: Graph, a: Name)
    ensures Reaches(g, a, a)
  {
    assert WalkBetween(g, [a], a, a);
  }

  lemma ReachesFurther(g: Graph, a: Name, b: Name, c: Name)
    requires Reaches(g, a, b) && Edge(g, b, c)
    ensures Reaches(g, a, c)
  {
    var w :| WalkBetween(g, w, a, b);
    assert WalkBetween(g, w + [c], a, c);
  }

  lemma ReachableFurther(g: Graph, starts: seq<Name>, b: Name, c: Name)
    requires ReachableFrom(g, starts, b) && Edge(g, b, c)
    ensures ReachableFrom(g, starts, c)
  {
    var a :| a in starts && Reaches(g, a, b);
    ReachesFurther(g, a, b, c);
  }

  lemma ReachesAfterEdge(g: Graph, a: Name, b: Name, c: Name)
    requires Edge(g, a, b) && Reaches(g, b, c)
    ensures Reaches(g, a, c)
  {
    var w :| WalkBetween(g, w, b, c);
    assert WalkBetween(g, [a] + w, a, c);
  }

  lemma EdgeAndBackIsCycle(g: Graph, a: Name, b: Name)
    requires Edge(g, a, b) && Reaches(g, b, a)
    ensures OnCycle(g, a)
  {
    var w :| WalkBetween(g, w, b, a);
    assert WalkBetween(g, [a] + w, a, a) && |[a] + w| >= 2;
  }

  lemma ExtendWalk(g: Graph, chain: seq<Name>, a: Name, b: Name)
    requires IsWalk(g, chain + [a]) && Edge(g, a, b)
    ensures IsWalk(g, chain + [a] + [b])
  {
    var w := chain + [a];
    forall i | 0 <= i < |w + [b]| - 1
      ensures Edge(g, (w + [b])[i], (w + [b])[i + 1])
    {
      if i < |w| - 1 {
        assert (w + [b])[i] == w[i] && (w + [b])[i + 1] == w[i + 1];
      }
    }
  }

  lemma ClosedChainIsCycle(g: Graph, chain: seq<Name>)
    requires ClosesCycle(g, chain)
    ensures OnCycle(g, chain[|chain| - 1])
  {
    var n := |chain| - 1;
    var i :| 0 <= i < n && chain[..n][i] == chain[n];
    var w := chain[i..];
    forall k | 0 <= k < |w| - 1
      ensures Edge(g, w[k], w[k + 1])
    {
      assert w[k] == chain[i + k] && w[k + 1] == chain[i + k + 1];
    }
    assert WalkBetween(g, w, chain[n], chain[n]) && |w| >= 2;
  }

  /** A set closed under edges keeps every walk that starts in it. */
  lemma {:induction false} WalkStaysInside(g: Graph, inside: set<Name>, w: seq<Name>, k: nat)
    requires IsWalk(g, w) && k < |w|
    requires w[0] in inside
    requires forall a, b :: a in inside && Edge(g, a, b) ==> b in inside
    ensures w[k] in inside
  {
    if k > 0 {
      WalkStaysInside(g, inside, w, k - 1);
      assert Edge(g, w[k - 1], w[k]);
    }
  }

  lemma ClosedSetHoldsReachable(g: Graph, inside: set<Name>, starts: seq<Name>)
    requires forall a :: a in starts ==> a in inside
    requires forall a, b :: a in inside && Edge(g, a, b) ==> b in inside
    ensures forall b :: ReachableFrom(g, starts, b) ==> b in inside
  {
    forall b | ReachableFrom(g, starts, b)
      ensures b in inside
    {
      var a :| a in starts && Reaches(g, a, b);
      var w :| WalkBetween(g, w, a, b);
      WalkStaysInside(g, inside, w, |w| - 1);
    }
  }

  /** Along a walk, positions in a finishing order strictly decrease. */
  lemma {:induction false} WalkDescends(g: Graph, order: seq<Name>, w: seq<Name>, at: nat)
    requires FinishOrder(g, order)
    requires IsWalk(g, w) && |w| >= 2
    requires at < |order| && w[0] == order[at]
    ensures w[|w| - 1] in order[..at]
    decreases |w|
  {
    assert Edge(g, order[at], w[1]);
    var next :| 0 <= next < at && order[next] == w[1];
    if |w| > 2 {
      var rest := w[1..];
      forall i | 0 <= i < |rest| - 1
        ensures Edge(g, rest[i], rest[i + 1])
      {
        assert rest[i] == w[i + 1] && rest[i + 1] == w[i + 2];
      }
      WalkDescends(g, order, rest, next);
      assert rest[|rest| - 1] in order[..next];
      assert order[..next] <= order[..at];
    }
  }

  /** A name listed in a finishing order lies on no cycle. */
  lemma FinishedIsNotOnCycle(g: Graph, order: seq<Name>, a: Name)
    requires FinishOrder(g, order) && a in order
    ensures !OnCycle(g, a)
  {
    if OnCycle(g, a) {
      var w :| WalkBetween(g, w, a, a) && |w| >= 2;
      var at :| 0 <= at < |order| && order[at] == a;
      WalkDescends(g, order, w, at);
      assert false;
    }
  }

  /** Appending a name whose successors are all listed keeps a finishing order. */
  lemma FinishOne(g: Graph, order: seq<Name>, a: Name)
    requires FinishOrder(g, order) && a !in order
    requires forall b :: b in Successors(g, a) ==> b in order
    ensures FinishOrder(g, order + [a])
  {
    var longer := order + [a];
    forall i, b | 0 <= i < |longer| && Edge(g, longer[i], b)
      ensures b in longer[..i]
    {
      assert longer[..i] == if i < |order| then order[..i] else order;
    }
  }

  /** The names of a finishing order are closed under edges. */
  lemma FinishedIsClosed(g: Graph, order: seq<Name>)
    requires FinishOrder(g, order)
    ensures forall a, b :: a in order && Edge(g, a, b) ==> b in order
  {
    forall a, b | a in order && Edge(g, a, b)
      ensures b in order
    {
      var i :| 0 <= i < |order| && order[i] == a;
      assert b in order[..i];
    }
  }
}
