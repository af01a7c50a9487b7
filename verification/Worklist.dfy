/** The worklist in scripts/runtime-acceptance.sh that closes a package over `depends`. */
module Worklist {
  import opened Graphs
  import opened Wrappers
  import opened Catalog

  /** The closure is everything reachable from the package. A name that is not in the catalog
      raises as soon as it is reached. */
  method Select(ports: Ports, package: Name) returns (r: Result<set<Name>, Name>)
    ensures r.Ok? ==> forall n :: n in r.value <==> Reaches(DependsGraph(ports), package, n)
    ensures r.Err? ==> r.error !in ports && Reaches(DependsGraph(ports), package, r.error)
    ensures r.Ok? <==> forall n :: Reaches(DependsGraph(ports), package, n) ==> n in ports
  {
    ghost var g := DependsGraph(ports);
    var pending := [package];
    var selected: set<Name> := {};
    ReachesItself(g, package);
    while pending != []
      invariant selected <= ports.Keys
      invariant forall n :: n in selected || n in pending ==> Reaches(g, package, n)
      invariant package in selected || package in pending
      invariant forall a, b :: a in selected && Edge(g, a, b) ==> b in selected || b in pending
      decreases ports.Keys - selected, |pending|
    {
      var current := pending[|pending| - 1];
      var rest := pending[..|pending| - 1];
      assert pending == rest + [current];
      pending := rest;
      if current in selected {
        continue;
      }
      if current !in ports {
        return Err(current);
      }
      selected := selected + {current};
      forall b | b in ports[current].depends
        ensures Reaches(g, package, b)
      {
        assert Edge(g, current, b);
        ReachesFurther(g, package, current, b);
      }
      pending := pending + ports[current].depends;
    }
    ClosedSetHoldsReachable(g, selected, [package]);
    forall n | Reaches(g, package, n)
      ensures n in selected
    {
      assert ReachableFrom(g, [package], n);
    }
    return Ok(selected);
  }
}
