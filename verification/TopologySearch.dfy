/** The searches as the source runs them: shared result lists, and the interface worklist. */
module TopologySearch {
  import opened Ordering
  import opened Topology

  /** The lists that `walk` appends to. */
  class Search {
    const graph: Graph
    const probe: bool
    var paths: seq<seq<Name>>
    var cycles: seq<seq<Name>>
    var missing: set<Name>

    constructor (graph: Graph, probe: bool)
      ensures this.graph == graph && this.probe == probe && paths == [] && cycles == [] && missing == {}
    {
      this.graph, this.probe := graph, probe;
      paths, cycles, missing := [], [], {};
    }

    method Visit(current: Name, path: seq<Name>)
      modifies this
      ensures var f := Walk(graph, current, path, probe);
              && paths == old(paths) + f.paths && cycles == old(cycles) + f.cycles
              && missing == old(missing) + f.missing
      decreases graph.Keys - Elements(path)
    {
      hide WalkAll, Children;
      var here := path + [current];
      if current in path {
        cycles := cycles + [path[Index(path, current)..] + [current]];
        if !probe { paths := paths + [here]; }
        return;
      }
      if current !in graph {
        missing := missing + {current};
        if !probe { paths := paths + [here]; }
        return;
      }
      var children := Children(graph[current]);
      if children == [] {
        paths := paths + [here];
        return;
      }
      Unfold(graph, current, path, probe);
      assert current in graph.Keys - Elements(path) && current !in graph.Keys - Elements(here);
      assert graph.Keys - Elements(here) <= graph.Keys - Elements(path);
      hide Walk;
      ghost var all := WalkAll(graph, children, here, probe);
      assert children[0..] == children;
      var i := 0;
      while i < |children|
        invariant 0 <= i <= |children|
        invariant var rest := WalkAll(graph, children[i..], here, probe);
                  && paths + rest.paths == old(paths) + all.paths && cycles + rest.cycles == old(cycles) + all.cycles
                  && missing + rest.missing == old(missing) + all.missing
      {
        NextChild(graph, children, i, here, probe, paths, cycles, missing);
        Visit(children[i], here);
        i := i + 1;
      }
      NoChild(graph, children, here, probe, paths, cycles, missing);
    }
  }

  /** Moving one child's findings from what is left to what is done. */
  lemma NextChild(g: Graph, children: seq<Name>, i: nat, path: seq<Name>, probe: bool,
                  paths: seq<seq<Name>>, cycles: seq<seq<Name>>, missing: set<Name>)
    requires i < |children|
    ensures var rest, one, next := WalkAll(g, children[i..], path, probe), Walk(g, children[i], path, probe),
                                   WalkAll(g, children[i + 1..], path, probe);
            && paths + rest.paths == (paths + one.paths) + next.paths
            && cycles + rest.cycles == (cycles + one.cycles) + next.cycles
            && missing + rest.missing == (missing + one.missing) + next.missing
  {
    hide Walk;
    assert children[i..][1..] == children[i + 1..];
    var one, next := Walk(g, children[i], path, probe), WalkAll(g, children[i + 1..], path, probe);
    assert WalkAll(g, children[i..], path, probe) == Both(one, next);
    assert paths + (one.paths + next.paths) == (paths + one.paths) + next.paths;
    assert cycles + (one.cycles + next.cycles) == (cycles + one.cycles) + next.cycles;
  }

  lemma NoChild(g: Graph, children: seq<Name>, path: seq<Name>, probe: bool,
                paths: seq<seq<Name>>, cycles: seq<seq<Name>>, missing: set<Name>)
    ensures var rest := WalkAll(g, children[|children|..], path, probe);
            paths + rest.paths == paths && cycles + rest.cycles == cycles && missing + rest.missing == missing
  {
    assert children[|children|..] == [];
  }

  /** `walk(name, [])` and the lists it leaves behind. */
  method SearchFrom(graph: Graph, start: Name, probe: bool) returns (f: Found)
    ensures f == Walk(graph, start, [], probe)
  {
    hide Walk;
    var search := new Search(graph, probe);
    search.Visit(start, []);
    f := Found(search.paths, search.cycles, search.missing);
    assert [] + f.paths == f.paths && [] + f.cycles == f.cycles;
  }

  // ---------------------------------------------------------------- the worklist of collect_network

  ghost predicate ReachableFrom(present: Graph, candidates: seq<Name>, x: Name) {
    exists c :: c in candidates && Reaches(present, c, x)
  }

  /** All names the worklist can ever hold. */
  function Mentioned(present: Graph, candidates: seq<Name>): set<Name> {
    Elements(candidates) + set n, c | n in present && c in Children(present[n]) :: c
  }

  lemma ReachesItself(g: Graph, a: Name)
    ensures Reaches(g, a, a)
  {
    assert WalkFrom(g, a, a, [a]);
  }

  lemma ReachesChild(g: Graph, a: Name, b: Name, c: Name)
    requires Reaches(g, a, b) && Edge(g, b, c)
    ensures Reaches(g, a, c)
  {
    hide Edge;
    var p :| WalkFrom(g, a, b, p);
    WalkExtend(g, p, c);
    assert WalkFrom(g, a, c, p + [c]);
  }

  /** A set of names that contains the start and all children of its present members contains all reachable names. */
  lemma {:induction false} ClosedReaches(g: Graph, visited: set<Name>, p: seq<Name>)
    requires IsWalk(g, p) && p[0] in visited
    requires forall v, c :: v in visited && Edge(g, v, c) ==> c in visited
    ensures Last(p) in visited
    decreases |p|
  {
    hide Edge;
    if |p| > 1 {
      WalkPart(g, p, 0, |p| - 1);
      var q := p[0..|p| - 1];
      ClosedReaches(g, visited, q);
      assert Edge(g, p[|p| - 2], p[|p| - 1]);
      assert Last(q) == p[|p| - 2];
    }
  }

  /** The state of the worklist between two rounds. */
  ghost predicate Working(present: Graph, candidates: seq<Name>, pending: seq<Name>, visited: set<Name>) {
    && (forall x :: x in pending || x in visited ==> x in Mentioned(present, candidates))
    && (forall x :: x in pending || x in visited ==> ReachableFrom(present, candidates, x))
    && (forall c :: c in candidates ==> c in visited || c in pending)
    && (forall v, c :: v in visited && Edge(present, v, c) ==> c in visited || c in pending)
  }

  lemma StartWorking(present: Graph, candidates: seq<Name>)
    ensures Working(present, candidates, Sort(TextLeq, candidates), {})
  {
    hide Edge, Reaches, Children, Sort;
    SortKeepsElements(TextLeq, candidates);
    forall c | c in candidates ensures ReachableFrom(present, candidates, c) { ReachesItself(present, c); }
  }

  /** A name taken from the list is either known, or absent, or contributes its unseen children. */
  lemma WorkingStep(present: Graph, candidates: seq<Name>, pending: seq<Name>, visited: set<Name>, children: seq<Name>)
    requires pending != [] && Working(present, candidates, pending, visited)
    requires forall c :: c in children <==> Edge(present, pending[0], c) && c !in visited && c != pending[0]
    ensures pending[0] in visited ==> Working(present, candidates, pending[1..], visited)
    ensures Working(present, candidates, pending[1..] + children, visited + {pending[0]})
    ensures pending[0] in Mentioned(present, candidates)
  {
    hide Edge, Reaches, Children, Mentioned;
    var name, rest := pending[0], pending[1..];
    assert forall x :: x in pending <==> x == name || x in rest;
    forall c | c in children ensures ReachableFrom(present, candidates, c) && c in Mentioned(present, candidates) {
      assert ReachableFrom(present, candidates, name);
      var a :| a in candidates && Reaches(present, a, name);
      ReachesChild(present, a, name, c);
      ChildMentioned(present, candidates, name, c);
    }
  }

  lemma ChildMentioned(present: Graph, candidates: seq<Name>, a: Name, c: Name)
    requires Edge(present, a, c)
    ensures c in Mentioned(present, candidates)
  {
  }

  lemma WorkDone(present: Graph, candidates: seq<Name>, visited: set<Name>)
    requires Working(present, candidates, [], visited)
    ensures forall x :: x in visited <==> ReachableFrom(present, candidates, x)
  {
    hide Edge, Reaches, Mentioned;
    forall x | ReachableFrom(present, candidates, x) ensures x in visited {
      var a :| a in candidates && Reaches(present, a, x);
      ReachedVisited(present, visited, a, x);
    }
  }

  /**
    Visit every interface below the candidates once and add the present ones to the inventory.
    Terminates on cyclic graphs; the inventory grows by exactly the present names that a candidate reaches.
   */
  method CollectInterfaces(present: Graph, inventory: set<Name>, candidates: seq<Name>) returns (collected: set<Name>)
    ensures forall x :: x in collected <==> x in inventory || (x in present && ReachableFrom(present, candidates, x))
  {
    hide Children, Working, ReachableFrom, Mentioned, Edge;
    var pending := Sort(TextLeq, candidates);
    var visited: set<Name> := {};
    collected := inventory;
    StartWorking(present, candidates);
    while pending != []
      invariant Working(present, candidates, pending, visited)
      invariant forall x :: x in collected <==> x in inventory || (x in present && x in visited)
      decreases Mentioned(present, candidates) - visited, |pending|
    {
      var name, rest := pending[0], pending[1..];
      if name in visited {
        ghost var children := UnseenChildren(present, name, visited);
        WorkingStep(present, candidates, pending, visited, children);
        pending := rest;
      } else {
        var children := UnseenChildren(present, name, visited);
        WorkingStep(present, candidates, pending, visited, children);
        assert name in Mentioned(present, candidates) - visited;
        visited := visited + {name};
        if name in present {
          collected := collected + {name};
        }
        pending := rest + children;
      }
    }
    WorkDone(present, candidates, visited);
  }

  /** The children of a present interface that are neither visited nor the interface itself; an absent one has none. */
  function UnseenChildren(present: Graph, name: Name, visited: set<Name>): (r: seq<Name>)
    ensures forall c :: c in r <==> Edge(present, name, c) && c !in visited && c != name
  {
    if name in present then Unseen(Children(present[name]), visited + {name}) else []
  }

  lemma ReachedVisited(g: Graph, visited: set<Name>, a: Name, x: Name)
    requires a in visited && Reaches(g, a, x)
    requires forall v, c :: v in visited && Edge(g, v, c) ==> c in visited
    ensures x in visited
  {
    hide Edge;
    var p :| WalkFrom(g, a, x, p);
    ClosedReaches(g, visited, p);
  }

  function Unseen(names: seq<Name>, visited: set<Name>): (r: seq<Name>)
    ensures forall x :: x in r <==> x in names && x !in visited
  {
    if names == [] then [] else
      var rest := Unseen(names[1..], visited);
      assert forall x :: x in names <==> x == names[0] || x in names[1..];
      if names[0] in visited then rest else [names[0]] + rest
  }
}
