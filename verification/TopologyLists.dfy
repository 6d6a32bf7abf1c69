/** The exact contents of the lists that both topology searches build. */
module TopologyLists {
  import opened Ordering
  import opened Topology

  /** A repetition-free walk from the start to an interface with nothing below it. */
  ghost predicate Ends(g: Graph, start: Name, w: seq<Name>) {
    IsWalk(g, w) && Distinct(w) && w[0] == start && (Last(w) !in g || Children(g[Last(w)]) == [])
  }

  /** A repetition-free walk from the start and a step back onto it. */
  ghost predicate Closes(g: Graph, start: Name, w: seq<Name>, y: Name) {
    IsWalk(g, w) && Distinct(w) && w[0] == start && Edge(g, Last(w), y) && y in w
  }

  /** The part of the walk that the step closes. */
  function Loop(w: seq<Name>, y: Name): seq<Name>
    requires y in w
  {
    w[Index(w, y)..] + [y]
  }

  ghost predicate IsLoop(g: Graph, start: Name, c: seq<Name>) {
    exists w, y :: Closes(g, start, w, y) && c == Loop(w, y)
  }

  ghost predicate IsClosed(g: Graph, start: Name, p: seq<Name>) {
    |p| >= 2 && Closes(g, start, p[..|p| - 1], Last(p))
  }

  ghost predicate MayBeListed(g: Graph, start: Name, p: seq<Name>, probe: bool) {
    if probe then Ends(g, start, p) && Last(p) in g else Ends(g, start, p) || IsClosed(g, start, p)
  }

  ghost predicate OnlyListed(g: Graph, start: Name, f: Found, probe: bool) {
    (forall p :: p in f.paths ==> MayBeListed(g, start, p, probe)) && forall c :: c in f.cycles ==> IsLoop(g, start, c)
  }

  lemma DistinctMore(path: seq<Name>, x: Name)
    requires Distinct(path) && x !in path
    ensures Distinct(path + [x])
  {
  }

  lemma ClosedHere(g: Graph, path: seq<Name>, current: Name, probe: bool)
    requires IsWalk(g, path + [current]) && Distinct(path) && current in path
    ensures OnlyListed(g, path[0], Walk(g, current, path, probe), probe)
  {
    StepClosed(g, path, current);
    hide Closes, Distinct, Children, WalkAll, IsWalk, Edge, Ends, Loop;
    var here := path + [current];
    AtRepeat(g, current, path, probe);
    assert here[..|here| - 1] == path && Last(here) == current;
    assert IsLoop(g, path[0], Loop(path, current));
  }

  lemma StepClosed(g: Graph, path: seq<Name>, current: Name)
    requires IsWalk(g, path + [current]) && Distinct(path) && current in path
    ensures Closes(g, path[0], path, current)
  {
    hide Edge, Distinct;
    var here := path + [current];
    assert Edge(g, here[|path| - 1], here[|path|]);
    WalkPart(g, here, 0, |path|);
    assert here[0..|path|] == path;
  }

  lemma EndsHere(g: Graph, path: seq<Name>, current: Name, probe: bool)
    requires IsWalk(g, path + [current]) && Distinct(path) && current !in path
    requires current !in g || Children(g[current]) == []
    ensures OnlyListed(g, (path + [current])[0], Walk(g, current, path, probe), probe)
  {
    hide Edge, Distinct, Children;
    DistinctMore(path, current);
    assert Last(path + [current]) == current;
  }

  lemma {:induction false} WalkListed(g: Graph, current: Name, path: seq<Name>, probe: bool)
    requires IsWalk(g, path + [current]) && Distinct(path)
    ensures OnlyListed(g, (path + [current])[0], Walk(g, current, path, probe), probe)
    decreases g.Keys - Elements(path), 0
  {
    hide Children, OnlyListed, Edge, Distinct, WalkAll;
    var here := path + [current];
    if current in path {
      ClosedHere(g, path, current, probe);
      assert here[0] == path[0];
    } else if current !in g || Children(g[current]) == [] {
      EndsHere(g, path, current, probe);
    } else {
      assert current in g.Keys - Elements(path) && current !in g.Keys - Elements(here);
      assert g.Keys - Elements(here) <= g.Keys - Elements(path);
      DistinctMore(path, current);
      Unfold(g, current, path, probe);
      assert Last(here) == current;
      forall c | c in Children(g[current]) ensures Edge(g, Last(here), c) { ChildEdge(g, current, c); }
      WalkAllListed(g, Children(g[current]), here, probe);
    }
  }

  lemma ChildEdge(g: Graph, a: Name, b: Name)
    requires a in g && b in Children(g[a])
    ensures Edge(g, a, b)
  {
  }

  lemma {:induction false} WalkAllListed(g: Graph, children: seq<Name>, path: seq<Name>, probe: bool)
    requires IsWalk(g, path) && Distinct(path) && forall c :: c in children ==> Edge(g, Last(path), c)
    ensures OnlyListed(g, path[0], WalkAll(g, children, path, probe), probe)
    decreases g.Keys - Elements(path), 1 + |children|
  {
    hide Walk, Edge, Distinct, MayBeListed, IsLoop;
    if children != [] {
      assert children[0] in children;
      WalkExtend(g, path, children[0]);
      WalkListed(g, children[0], path, probe);
      assert forall c :: c in children[1..] ==> c in children;
      WalkAllListed(g, children[1..], path, probe);
    }
  }

  // ---------------------------------------------------------------- everything is listed

  lemma EndIsListed(g: Graph, start: Name, w: seq<Name>, probe: bool)
    requires Ends(g, start, w) && (probe ==> Last(w) in g)
    ensures w in Walk(g, start, [], probe).paths
  {
    hide Walk, Edge, Children;
    Arrives(g, w, probe);
    var front, x := w[..|w| - 1], Last(w);
    NotYet(w, front, x);
    assert front + [x] == w;
    if x in g { AtLeaf(g, x, front, probe); } else { AtMissing(g, x, front, probe); }
    assert w in Walk(g, x, front, probe).paths;
  }

  lemma ClosingIsListed(g: Graph, start: Name, w: seq<Name>, y: Name, probe: bool)
    requires Closes(g, start, w, y)
    ensures Loop(w, y) in Walk(g, start, [], probe).cycles
    ensures !probe ==> w + [y] in Walk(g, start, [], probe).paths
  {
    hide WalkAll, Children, Edge, Walk;
    Arrives(g, w, probe);
    var front := w[..|w| - 1];
    assert front + [Last(w)] == w;
    NotYet(w, front, Last(w));
    StepInto(g, Last(w), front, y, probe);
    AtRepeat(g, y, w, probe);
    var f := Walk(g, y, w, probe);
    assert Loop(w, y) in f.cycles && (!probe ==> w + [y] in f.paths);
  }

  lemma AtRepeat(g: Graph, y: Name, w: seq<Name>, probe: bool)
    requires y in w
    ensures Walk(g, y, w, probe) == Found(if probe then [] else [w + [y]], [Loop(w, y)], {})
  {
    hide WalkAll;
  }

  /**
    Main result: the listed cycles are exactly the loops that a step back onto a repetition-free walk closes;
    both searches.
   */
  lemma CyclesExact(g: Graph, start: Name, probe: bool, c: seq<Name>)
    ensures c in Walk(g, start, [], probe).cycles <==> IsLoop(g, start, c)
  {
    hide Walk, Loop, MayBeListed, IsWalk, Edge, Distinct;
    OneStep(g, start);
    WalkListed(g, start, [], probe);
    if IsLoop(g, start, c) {
      var w, y :| Closes(g, start, w, y) && c == Loop(w, y);
      ClosingIsListed(g, start, w, y, probe);
    }
  }

  lemma OneStep(g: Graph, start: Name)
    ensures IsWalk(g, [] + [start]) && ([] + [start])[0] == start && Distinct<Name>([])
  {
  }

  /**
    Main result: the listed paths are exactly the repetition-free walks to an interface with nothing below it, and
    for the report also those that step back onto themselves; the probe lists only ends that are present.
   */
  lemma PathsExact(g: Graph, start: Name, probe: bool, p: seq<Name>)
    ensures p in Walk(g, start, [], probe).paths <==> MayBeListed(g, start, p, probe)
  {
    hide Walk, Closes, IsLoop, Ends;
    OneStep(g, start);
    WalkListed(g, start, [], probe);
    if MayBeListed(g, start, p, probe) {
      if Ends(g, start, p) {
        EndIsListed(g, start, p, probe);
      } else {
        var w, y := p[..|p| - 1], Last(p);
        ClosingIsListed(g, start, w, y, probe);
        assert w + [y] == p;
      }
    }
  }

  // ---------------------------------------------------------------- nothing is listed twice

  /** All paths go through `path`, and none is listed twice. */
  ghost predicate Once(paths: seq<seq<Name>>, path: seq<Name>) {
    Distinct(paths) && forall p :: p in paths ==> path <= p
  }

  lemma {:induction false} WalkOnce(g: Graph, current: Name, path: seq<Name>, probe: bool)
    ensures Once(Walk(g, current, path, probe).paths, path + [current])
    decreases g.Keys - Elements(path), 0
  {
    hide Children, WalkAll;
    var here := path + [current];
    if current !in path && current in g && Children(g[current]) != [] {
      assert current in g.Keys - Elements(path) && current !in g.Keys - Elements(here);
      assert g.Keys - Elements(here) <= g.Keys - Elements(path);
      ChildrenAre(g[current]);
      WalkAllOnce(g, Children(g[current]), here, probe);
    }
  }

  /** Paths through different children are different. */
  lemma {:induction false} WalkAllOnce(g: Graph, children: seq<Name>, path: seq<Name>, probe: bool)
    requires Distinct(children)
    ensures Once(WalkAll(g, children, path, probe).paths, path)
    ensures forall p :: p in WalkAll(g, children, path, probe).paths ==> |p| > |path| && p[|path|] in children
    decreases g.Keys - Elements(path), 1 + |children|
  {
    hide Walk;
    if children != [] {
      var c, rest := children[0], children[1..];
      var a, b := Walk(g, c, path, probe).paths, WalkAll(g, rest, path, probe).paths;
      WalkOnce(g, c, path, probe);
      WalkAllOnce(g, rest, path, probe);
      assert c !in rest;
      forall p | p in a ensures path <= p && |p| > |path| && p[|path|] == c {
        assert path + [c] <= p;
        assert p[..|path|] == (path + [c])[..|path|] == path;
        assert p[|path|] == (path + [c])[|path|];
      }
      DistinctAppend(a, b);
    }
  }

  /** Main result: no search lists a path twice. */
  lemma PathsOnce(g: Graph, start: Name, probe: bool)
    ensures Distinct(Walk(g, start, [], probe).paths)
  {
    hide Walk;
    WalkOnce(g, start, [], probe);
  }
}
